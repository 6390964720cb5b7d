# Aspect-fit overlay frames for recognized text

This project models the deterministic part of `ScaledElementProcessor` in a
small iOS text-recognition app. After on-device recognition, the processor
turns every recognized text element into an overlay frame on the displayed
image. It does this in two steps:

- **`createScaledFrame`**: the aspect-fit coordinate transform. The image is
  scaled uniformly so that it fits the image view, centred, and letterboxed on
  the axis it does not fill. A rectangle in image-pixel space is mapped into
  the view's space. This step is pure; `FrameScaling` models it as functions
  with lemmas over exact `real` arithmetic.
- **the completion handler of `process`**: it rejects a failed or empty
  recognition with `("", [])`. Otherwise it walks blocks, then lines, then
  elements, and appends one scaled frame per element. `ScaledElementProcessor.Process`
  models it as a method with the source's triple nested loop. The method is
  proved equal to a functional specification: flatten, then scale every frame.

Files:

- `geometry.dfy` (module `Geometry`): `Size` and `Rect` (CGSize and CGRect,
  with CGFloat as `real`), plus the predicates `Positive`, `NonNegative`, `Inside` and `Within`.
- `recognition.dfy` (module `Recognition`): the recognizer's result as an
  input value. A `Completion` holds an optional `Text` and an optional error.
  A `Text` holds a string and blocks; a block holds lines; a line holds
  elements; an element holds a frame.
- `frame_scaling.dfy` (module `FrameScaling`): `Scale`, `FittedImage`,
  `CreateScaledFrame` and their properties.
- `scaled_element_processor.dfy` (module `ScaledElementProcessor`): the
  guard, the flattening loop `Process`, its specification `Outcome`, and the
  lemmas about element counts and order.

The transform is invariant under a common factor: multiplying the image size
and every coordinate of the frame by the same `k > 0` leaves the output
unchanged (`ScaleInvariance`). Different factors on the two do not cancel.
For the frame (10,10,20,20) with a 100x100 image in a 100x100 view, doubling
the image and halving the frame to (5,5,10,10) changes the output from
(10,10,20,20) to (2.5,2.5,5,5) (`DoubleImageHalveFeatureDiffers`).

## Model

| member | source | states |
|---|---|---|
| `FrameScaling.Scale` | Extractor/Controller/ScaledElementProcessor.swift:131-136 | the uniform scale factor is non-negative, and positive exactly when the view has a positive width and height |
| `FrameScaling.ViewIsWider` | Extractor/Controller/ScaledElementProcessor.swift:128-132 | no `ensures`: the branch condition, the view's aspect ratio strictly greater than the image's, with the floating-point outcome for a zero-height view (+infinity beats every ratio, NaN loses); `HeightBased` and `WidthBased` restate it without division |
| `FrameScaling.HeightBased` | Extractor/Controller/ScaledElementProcessor.swift:132-133 | when the view's aspect ratio is strictly greater than the image's, the scale is the height-based `view.h / image.h` |
| `FrameScaling.WidthBased` | Extractor/Controller/ScaledElementProcessor.swift:134-135 | when the view's aspect ratio is not greater than the image's, equal ratios included, the scale is the width-based `view.w / image.w` |
| `FrameScaling.ScaleFits` | Extractor/Controller/ScaledElementProcessor.swift:131-142 | the scaled image is no wider and no taller than the view, and matches the view exactly along one axis |
| `FrameScaling.ScaleIsLargestFit` | Extractor/Controller/ScaledElementProcessor.swift:128-142 | every uniform scale at which the image fits is at most the chosen one, so aspect fit picks the largest scale that fits |
| `FrameScaling.FittedImageInView` | Extractor/Controller/ScaledElementProcessor.swift:141-144 | the scaled image lies within the view, has equal margins on both sides of each axis, keeps the image's aspect ratio and fills one axis |
| `FrameScaling.LetterboxOffsets` | Extractor/Controller/ScaledElementProcessor.swift:128-144 | both centring offsets are non-negative and at least one is zero; both are zero exactly when the two aspect ratios are equal |
| `FrameScaling.FittedImage` | Extractor/Controller/ScaledElementProcessor.swift:141-144 | no `ensures`: the rectangle of the scaled image centred in the view; its promises are carried by `FittedImageInView`, `LetterboxOffsets`, `ImageMapsToFittedImage` and `FittedImageOfMagnified` |
| `FrameScaling.CreateScaledFrame` | Extractor/Controller/ScaledElementProcessor.swift:123-153 | no `ensures`: scale the feature by `Scale`, then shift it by the fitted image's origin; its promises are carried by `SizeScales`, `InclusionPreserved`, `ContainedStaysContained`, `ViewOriginIgnored`, `SameSizeIsIdentity`, `ScaleInvariance`, `Injective`, `ZeroViewCollapses` and the two worked examples |
| `FrameScaling.SizeScales` | Extractor/Controller/ScaledElementProcessor.swift:138-152 | the output size does not depend on the feature's origin; a zero width or height maps to zero, and a positive one to a positive one |
| `FrameScaling.InclusionPreserved` | Extractor/Controller/ScaledElementProcessor.swift:138-152 | a frame inside another maps to a frame inside the other's image |
| `FrameScaling.ImageMapsToFittedImage` | Extractor/Controller/ScaledElementProcessor.swift:141-152 | the whole image rectangle maps onto the scaled, centred image |
| `FrameScaling.ContainedStaysContained` | Extractor/Controller/ScaledElementProcessor.swift:126-152 | a feature inside `[0,imgW]x[0,imgH]` maps inside `[0,viewW]x[0,viewH]` |
| `FrameScaling.ViewOriginIgnored` | Extractor/Controller/ScaledElementProcessor.swift:124-126 | only the size of `viewFrame` is used, never its origin |
| `FrameScaling.SameSizeIsIdentity` | Extractor/Controller/ScaledElementProcessor.swift:128-152 | when the image size equals the view size, every feature frame is returned unchanged |
| `FrameScaling.ScaleOfMagnified` | Extractor/Controller/ScaledElementProcessor.swift:128-136 | multiplying the image size by `k > 0` divides the scale factor by `k` |
| `FrameScaling.FittedImageOfMagnified` | Extractor/Controller/ScaledElementProcessor.swift:128-144 | multiplying the image size by `k > 0` leaves the scaled, centred image rectangle unchanged |
| `FrameScaling.ScaleInvariance` | Extractor/Controller/ScaledElementProcessor.swift:128-152 | multiplying the image size and every coordinate of the feature by the same `k > 0` leaves the output unchanged |
| `FrameScaling.DoubleImageHalveFeatureDiffers` | Extractor/Controller/ScaledElementProcessor.swift:128-152 | for the frame (10,10,20,20) with a 100x100 image in a 100x100 view, doubling the image and halving the frame to (5,5,10,10) changes the output |
| `FrameScaling.ZeroViewCollapses` | Extractor/Controller/ScaledElementProcessor.swift:128-152 | a view of zero width or zero height gives scale 0, so every feature maps to the empty rectangle `(viewW/2, viewH/2, 0, 0)` at the view's centre |
| `FrameScaling.Injective` | Extractor/Controller/ScaledElementProcessor.swift:138-152 | distinct feature frames map to distinct output frames |
| `FrameScaling.ExampleHeightConstrained` | Extractor/Controller/ScaledElementProcessor.swift:128-152 | a 100x200 image in a 200x200 view maps (10,10,20,20) to (60,10,20,20) |
| `FrameScaling.ExampleWidthConstrained` | Extractor/Controller/ScaledElementProcessor.swift:128-152 | a 200x100 image in a 100x100 view maps (20,20,40,20) to (10,35,20,10) |
| `ScaledElementProcessor.Process` | Extractor/Controller/ScaledElementProcessor.swift:67-92 | the guard and the triple loop pass to the callback exactly `Outcome`: `("", [])` on rejection, otherwise the text and the scaled frames of the flattened elements |
| `ScaledElementProcessor.Accepted` | Extractor/Controller/ScaledElementProcessor.swift:67-69 | no `ensures`: the guard, no error, a result and non-empty text; `ErrorPolicy` states what follows from it |
| `ScaledElementProcessor.LineFrames` | Extractor/Controller/ScaledElementProcessor.swift:80-88 | no `ensures`: the frames of a block's lines, line after line; `LineFramesLength` and `LineFramesAt` carry its promises |
| `ScaledElementProcessor.BlockFrames` | Extractor/Controller/ScaledElementProcessor.swift:79-90 | no `ensures`: the frames of all blocks, block after block; `BlockFramesLength` and `BlockFramesAt` carry its promises |
| `ScaledElementProcessor.ScaleAll` | Extractor/Controller/ScaledElementProcessor.swift:81-87 | no `ensures`: one overlay per frame, each from `createScaledFrame`; `ScaleAllAt` carries its promises |
| `ScaledElementProcessor.Outcome` | Extractor/Controller/ScaledElementProcessor.swift:67-92 | no `ensures`: `("", [])` when the guard fails, else the text and `ScaleAll` of `BlockFrames`; `Process` is proved equal to it, and `ErrorPolicy` and `OverlayPerElement` carry its promises |
| `ScaledElementProcessor.ErrorPolicy` | Extractor/Controller/ScaledElementProcessor.swift:67-92 | the text is empty exactly when the recognizer reported an error, gave no result or gave empty text; in those cases the overlays are empty too; otherwise the text is passed through unchanged |
| `ScaledElementProcessor.ElementFrames` | Extractor/Controller/ScaledElementProcessor.swift:81 | a line contributes its elements' frames, one per element, in order |
| `ScaledElementProcessor.ScaleAllAt` | Extractor/Controller/ScaledElementProcessor.swift:81-87 | there is one overlay per frame, and overlay `i` has `createScaledFrame` of frame `i` |
| `ScaledElementProcessor.LineFramesLength` | Extractor/Controller/ScaledElementProcessor.swift:80-88 | flattening the lines of a block yields as many frames as the lines have elements |
| `ScaledElementProcessor.BlockFramesLength` | Extractor/Controller/ScaledElementProcessor.swift:79-90 | flattening all blocks yields as many frames as there are elements over all blocks and lines |
| `ScaledElementProcessor.LineFramesAt` | Extractor/Controller/ScaledElementProcessor.swift:80-88 | element `e` of line `l` comes right after all elements of the earlier lines |
| `ScaledElementProcessor.BlockFramesAt` | Extractor/Controller/ScaledElementProcessor.swift:79-90 | element `e` of line `l` of block `b` is flattened to index `Position(b, l, e)`, after all elements of earlier blocks and of earlier lines in its block |
| `ScaledElementProcessor.PositionOrder` | Extractor/Controller/ScaledElementProcessor.swift:79-90 | an element that comes earlier in block, line, element order gets a strictly smaller index |
| `ScaledElementProcessor.OverlayPerElement` | Extractor/Controller/ScaledElementProcessor.swift:77-92 | an accepted recognition yields exactly one overlay per element; the overlay at an element's position is `createScaledFrame` of that element's frame |

## Left out

- `ViewController.swift` is not part of this model. It is UIKit plumbing: keyboard observers, the image picker, the camera alert, the share sheet and overlay sublayers.
- The Firebase `Vision` set-up and the asynchronous `textRecognizer.process` call are not modelled. They are a foreign SDK behind an async boundary. Their outcome is the `Completion` input of `Process`.
- The `guard let image = imageView.image else { return }` early exit is not modelled. It only decides whether the callback fires at all. The image's size is an input.
- `createShapeLayer`, `Constants` and the `shapeLayer` field of `ScaledElement` are not modelled. They hold the rendering (Bézier path, colours, line width), not geometry.
- CGFloat rounding is not modelled. All arithmetic is exact `real`.
- Process: requires a positive image size and a view with no negative dimension, even on the rejection path, which never divides. A view of zero width or height is modelled (see `ZeroViewCollapses`). Images with a zero dimension are not. With CGFloat, an image (0, h) has aspect ratio 0; with a view of positive width it takes the height-based branch and gives finite frames, and with a view of zero width it computes 0/0 and gives NaN. The model leaves (0, h) out by choice, to keep one precondition on the image. An image (w, 0) has aspect ratio +infinity and always takes the width-based branch; exact reals have no infinity, so modelling it would take a separate case for that ratio, and the model leaves it out. A 0x0 image gives NaN. Negative sizes are left out too.
- FrameScaling.CreateScaledFrame: requires a positive image size and a view with no negative dimension, for the same reason. Injectivity, inclusion and most other lemmas about a proper fit also require a view of positive size, since a degenerate view collapses every feature to one point.
