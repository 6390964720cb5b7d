/** The aspect-fit coordinate transform of `createScaledFrame`: a rectangle
    in image-pixel space is mapped to the image view's space, where the image
    is scaled uniformly to fit the view and centred in it (letterboxed on the
    axis it does not fill). */
module FrameScaling {
  import opened Geometry

  /** The comparison the transform branches on: the view's aspect ratio is
      strictly greater than the image's (the view is relatively wider). For a
      view of height zero the floating-point ratio is +infinity when the width
      is positive, which beats every finite ratio, and NaN when the width is
      zero too, which compares false. */
  predicate ViewIsWider(image: Size, view: Size)
    requires Positive(image) && NonNegative(view)
  {
    if view.h == 0.0 then view.w > 0.0
    else view.w / view.h > image.w / image.h
  }

  /** The one uniform scale factor: height-based when the view is strictly
      wider than the image, width-based otherwise (ties included). It is
      zero exactly when the view has a zero dimension. */
  function Scale(image: Size, view: Size): (s: real)
    requires Positive(image) && NonNegative(view)
    ensures s >= 0.0
    ensures s > 0.0 <==> Positive(view)
  {
    if ViewIsWider(image, view) then view.h / image.h else view.w / image.w
  }

  /** The rectangle the scaled image occupies inside the view, centred
      on both axes (see FittedImageInView). */
  function FittedImage(image: Size, view: Size): Rect
    requires Positive(image) && NonNegative(view)
  {
    var s := Scale(image, view);
    var w := image.w * s;
    var h := image.h * s;
    Rect((view.w - w) / 2.0, (view.h - h) / 2.0, w, h)
  }

  /** `createScaledFrame(featureFrame:imageSize:viewFrame:)`. Only the size
      of `viewFrame` is used. */
  function CreateScaledFrame(feature: Rect, imageSize: Size, viewFrame: Rect): Rect
    requires Positive(imageSize) && NonNegative(SizeOf(viewFrame))
  {
    var viewSize := SizeOf(viewFrame);
    var scale := Scale(imageSize, viewSize);
    var fit := FittedImage(imageSize, viewSize);
    ScaleThenShift(feature, scale, fit.x, fit.y)
  }

  /** Scales a rectangle uniformly by `s` about the origin, then moves it by
      (dx, dy). */
  function ScaleThenShift(f: Rect, s: real, dx: real, dy: real): Rect {
    Rect(dx + f.x * s, dy + f.y * s, f.w * s, f.h * s)
  }

  // ----- arithmetic helpers -----

  /** Comparing two positive ratios by cross-multiplication. */
  lemma RatioLess(a: real, b: real, c: real, d: real)
    requires b > 0.0 && d > 0.0
    ensures a / b > c / d <==> a * d > c * b
  {
    assert a / b * (b * d) == a * d;
    assert c / d * (b * d) == c * b;
  }

  /** A positive factor keeps a length's sign. */
  lemma SignPreserved(a: real, s: real)
    requires s > 0.0
    ensures a * s == 0.0 <==> a == 0.0
    ensures a * s > 0.0 <==> a > 0.0
  {
    if a < 0.0 { assert a * s < 0.0 * s; }
    if a > 0.0 { assert a * s > 0.0 * s; }
  }

  /** A positive factor can be cancelled. */
  lemma CancelFactor(a: real, b: real, s: real)
    requires s > 0.0 && a * s == b * s
    ensures a == b
  {}

  /** Multiplying by `k` and then by `t` is multiplying by `t * k`. */
  lemma Regroup(a: real, k: real, t: real, s: real)
    requires t * k == s
    ensures a * k * t == a * s
  {}

  /** Magnifying a rectangle by `k` and scaling it by `t` is scaling it by
      `t * k`. */
  lemma MagnifiedScaleThenShift(f: Rect, k: real, t: real, s: real, dx: real, dy: real)
    requires t * k == s
    ensures ScaleThenShift(Rect(f.x * k, f.y * k, f.w * k, f.h * k), t, dx, dy)
            == ScaleThenShift(f, s, dx, dy)
  {
    Regroup(f.x, k, t, s);
    Regroup(f.y, k, t, s);
    Regroup(f.w, k, t, s);
    Regroup(f.h, k, t, s);
    var m := Rect(f.x * k, f.y * k, f.w * k, f.h * k);
    assert ScaleThenShift(m, t, dx, dy) == Rect(dx + f.x * s, dy + f.y * s, f.w * s, f.h * s);
  }

  /** One axis of the transform `p |-> off + p * s` with `s > 0`: the
      interval [fx, fx + fw] inside [gx, gx + gw] is mapped to the interval
      [ax, ax + aw] inside [bx, bx + bw]. */
  lemma AxisInclusion(fx: real, fw: real, gx: real, gw: real, s: real, off: real,
                      ax: real, aw: real, bx: real, bw: real)
    requires s > 0.0 && 0.0 <= fw && gx <= fx && fx + fw <= gx + gw
    requires ax == off + fx * s && aw == fw * s
    requires bx == off + gx * s && bw == gw * s
    ensures 0.0 <= aw && bx <= ax && ax + aw <= bx + bw
  {
    assert gx * s <= fx * s;
    assert (fx + fw) * s <= (gx + gw) * s;
  }

  // ----- properties of the scale factor -----

  /** The height-based branch, stated without division: when
      `view.w * image.h > image.w * view.h` (the view is strictly wider),
      the scale is `view.h / image.h`. */
  lemma HeightBased(image: Size, view: Size)
    requires Positive(image) && NonNegative(view)
    requires view.w * image.h > image.w * view.h
    ensures Scale(image, view) == view.h / image.h
  {
    if view.h != 0.0 {
      RatioLess(view.w, view.h, image.w, image.h);
    }
  }

  /** The width-based branch and the tie-break, stated without division:
      when `view.w * image.h <= image.w * view.h` (the view is not wider,
      equal aspect ratios included), the scale is `view.w / image.w`. */
  lemma WidthBased(image: Size, view: Size)
    requires Positive(image) && NonNegative(view)
    requires view.w * image.h <= image.w * view.h
    ensures Scale(image, view) == view.w / image.w
  {
    if view.h != 0.0 {
      RatioLess(view.w, view.h, image.w, image.h);
    }
  }

  /** The scaled image fits inside the view and fills it along one axis. */
  lemma ScaleFits(image: Size, view: Size)
    requires Positive(image) && Positive(view)
    ensures image.w * Scale(image, view) <= view.w
    ensures image.h * Scale(image, view) <= view.h
    ensures image.w * Scale(image, view) == view.w || image.h * Scale(image, view) == view.h
  {
    var s := Scale(image, view);
    if view.w * image.h > image.w * view.h {
      HeightBased(image, view);
      assert s * image.h == view.h;
      calc {
        image.w * s * image.h;
        image.w * view.h;
      <  view.w * image.h;
      }
    } else {
      WidthBased(image, view);
      assert s * image.w == view.w;
      calc {
        image.h * s * image.w;
        image.h * view.w;
      <= view.h * image.w;
      }
    }
  }

  /** Aspect fit is the LARGEST uniform scale at which the whole image fits
      in the view: every scale that fits is at most `Scale`. */
  lemma ScaleIsLargestFit(image: Size, view: Size, t: real)
    requires Positive(image) && Positive(view)
    requires t > 0.0 && image.w * t <= view.w && image.h * t <= view.h
    ensures t <= Scale(image, view)
  {
    ScaleFits(image, view);
    var s := Scale(image, view);
    if image.w * s == view.w {
      assert image.w * t <= image.w * s;
    } else {
      assert image.h * t <= image.h * s;
    }
  }

  // ----- letterboxing -----

  /** The scaled image fits inside the view, is centred on both axes (equal
      margins on either side), keeps the image's aspect ratio and fills the
      view along at least one axis. */
  lemma FittedImageInView(image: Size, view: Size)
    requires Positive(image) && Positive(view)
    ensures var r := FittedImage(image, view);
            && Within(r, view)
            && r.x == view.w - (r.x + r.w) && r.y == view.h - (r.y + r.h)
            && r.w * image.h == r.h * image.w
            && (r.w == view.w || r.h == view.h)
  {
    ScaleFits(image, view);
    var s := Scale(image, view);
    assert image.w * s * image.h == image.h * s * image.w;
  }

  /** The centring offsets are non-negative; at least one is zero, and both
      are zero exactly when the view and the image have the same aspect
      ratio. */
  lemma LetterboxOffsets(image: Size, view: Size)
    requires Positive(image) && Positive(view)
    ensures FittedImage(image, view).x >= 0.0 && FittedImage(image, view).y >= 0.0
    ensures FittedImage(image, view).x == 0.0 || FittedImage(image, view).y == 0.0
    ensures (FittedImage(image, view).x == 0.0 && FittedImage(image, view).y == 0.0)
            <==> view.w / view.h == image.w / image.h
  {
    var s := Scale(image, view);
    ScaleFits(image, view);
    RatioLess(view.w, view.h, image.w, image.h);
    RatioLess(image.w, image.h, view.w, view.h);
    if view.w * image.h == image.w * view.h {
      WidthBased(image, view);
      assert s * image.w == view.w;
      assert image.h * s * image.w == view.h * image.w;
    }
  }

  // ----- properties of the frame transform -----

  /** The output size is the feature's size times the scale, whatever the
      feature's origin; a zero width or height stays zero and a positive one
      stays positive. */
  lemma SizeScales(f: Rect, g: Rect, imageSize: Size, viewFrame: Rect)
    requires Positive(imageSize) && Positive(SizeOf(viewFrame))
    requires SizeOf(f) == SizeOf(g)
    ensures SizeOf(CreateScaledFrame(f, imageSize, viewFrame)) == SizeOf(CreateScaledFrame(g, imageSize, viewFrame))
    ensures CreateScaledFrame(f, imageSize, viewFrame).w == 0.0 <==> f.w == 0.0
    ensures CreateScaledFrame(f, imageSize, viewFrame).h == 0.0 <==> f.h == 0.0
    ensures CreateScaledFrame(f, imageSize, viewFrame).w > 0.0 <==> f.w > 0.0
    ensures CreateScaledFrame(f, imageSize, viewFrame).h > 0.0 <==> f.h > 0.0
  {
    var s := Scale(imageSize, SizeOf(viewFrame));
    var fit := FittedImage(imageSize, SizeOf(viewFrame));
    assert CreateScaledFrame(f, imageSize, viewFrame) == ScaleThenShift(f, s, fit.x, fit.y);
    assert CreateScaledFrame(g, imageSize, viewFrame) == ScaleThenShift(g, s, fit.x, fit.y);
    SignPreserved(f.w, s);
    SignPreserved(f.h, s);
  }

  /** Scaling by a positive factor and shifting keeps one rectangle inside
      another. */
  lemma ScaleThenShiftInclusion(f: Rect, g: Rect, s: real, dx: real, dy: real)
    requires s > 0.0 && Inside(f, g)
    ensures Inside(ScaleThenShift(f, s, dx, dy), ScaleThenShift(g, s, dx, dy))
  {
    var a, b := ScaleThenShift(f, s, dx, dy), ScaleThenShift(g, s, dx, dy);
    AxisInclusion(f.x, f.w, g.x, g.w, s, dx, a.x, a.w, b.x, b.w);
    AxisInclusion(f.y, f.h, g.y, g.h, s, dy, a.y, a.h, b.y, b.h);
  }

  /** Scaling by a positive factor and shifting is one-to-one. */
  lemma ScaleThenShiftInjective(f: Rect, g: Rect, s: real, dx: real, dy: real)
    requires s > 0.0 && ScaleThenShift(f, s, dx, dy) == ScaleThenShift(g, s, dx, dy)
    ensures f == g
  {
    CancelFactor(f.x, g.x, s);
    CancelFactor(f.y, g.y, s);
    CancelFactor(f.w, g.w, s);
    CancelFactor(f.h, g.h, s);
  }

  /** A frame contained in another stays contained in its image. */
  lemma InclusionPreserved(f: Rect, g: Rect, imageSize: Size, viewFrame: Rect)
    requires Positive(imageSize) && Positive(SizeOf(viewFrame))
    requires Inside(f, g)
    ensures Inside(CreateScaledFrame(f, imageSize, viewFrame), CreateScaledFrame(g, imageSize, viewFrame))
  {
    var fit := FittedImage(imageSize, SizeOf(viewFrame));
    ScaleThenShiftInclusion(f, g, Scale(imageSize, SizeOf(viewFrame)), fit.x, fit.y);
  }

  /** The whole image is mapped onto the fitted image rectangle. */
  lemma ImageMapsToFittedImage(imageSize: Size, viewFrame: Rect)
    requires Positive(imageSize) && Positive(SizeOf(viewFrame))
    ensures CreateScaledFrame(Rect(0.0, 0.0, imageSize.w, imageSize.h), imageSize, viewFrame)
            == FittedImage(imageSize, SizeOf(viewFrame))
  {}

  /** Containment: a feature inside the image lies inside the view. */
  lemma ContainedStaysContained(feature: Rect, imageSize: Size, viewFrame: Rect)
    requires Positive(imageSize) && Positive(SizeOf(viewFrame))
    requires Within(feature, imageSize)
    ensures Within(CreateScaledFrame(feature, imageSize, viewFrame), SizeOf(viewFrame))
  {
    var whole := Rect(0.0, 0.0, imageSize.w, imageSize.h);
    InclusionPreserved(feature, whole, imageSize, viewFrame);
    ImageMapsToFittedImage(imageSize, viewFrame);
    FittedImageInView(imageSize, SizeOf(viewFrame));
  }

  /** Only the size of the view frame matters, never its origin. */
  lemma ViewOriginIgnored(feature: Rect, imageSize: Size, v1: Rect, v2: Rect)
    requires Positive(imageSize) && NonNegative(SizeOf(v1))
    requires SizeOf(v1) == SizeOf(v2)
    ensures CreateScaledFrame(feature, imageSize, v1) == CreateScaledFrame(feature, imageSize, v2)
  {}

  /** Identity: when the image has exactly the view's size, every frame is
      returned unchanged. */
  lemma SameSizeIsIdentity(feature: Rect, viewFrame: Rect)
    requires Positive(SizeOf(viewFrame))
    ensures CreateScaledFrame(feature, SizeOf(viewFrame), viewFrame) == feature
  {
    var view := SizeOf(viewFrame);
    WidthBased(view, view);
    assert view.w / view.w == 1.0;
  }

  /** Magnifying the image by `k > 0` keeps its aspect ratio, so the
      branch taken does not change. */
  lemma MagnifiedBranch(imageSize: Size, view: Size, k: real)
    requires Positive(imageSize) && Positive(view) && k > 0.0
    ensures view.w * (imageSize.h * k) > (imageSize.w * k) * view.h
            <==> view.w * imageSize.h > imageSize.w * view.h
  {
    assert view.w * (imageSize.h * k) == view.w * imageSize.h * k;
    assert (imageSize.w * k) * view.h == imageSize.w * view.h * k;
  }

  /** Dividing by `b * k` and multiplying by `k` is dividing by `b`. */
  lemma DivMagnified(a: real, b: real, k: real, s: real, t: real)
    requires b > 0.0 && k > 0.0
    requires s == a / b && t == a / (b * k)
    ensures t * k == s
  {}

  /** Magnifying the image by `k > 0` divides the scale factor by `k`. */
  lemma ScaleOfMagnified(imageSize: Size, view: Size, k: real)
    requires Positive(imageSize) && Positive(view) && k > 0.0
    ensures Scale(Size(imageSize.w * k, imageSize.h * k), view) * k == Scale(imageSize, view)
  {
    if view.w * imageSize.h > imageSize.w * view.h {
      MagnifiedHeightBased(imageSize, view, k);
    } else {
      MagnifiedWidthBased(imageSize, view, k);
    }
  }

  /** ScaleOfMagnified on the height-based branch. */
  lemma MagnifiedHeightBased(imageSize: Size, view: Size, k: real)
    requires Positive(imageSize) && Positive(view) && k > 0.0
    requires view.w * imageSize.h > imageSize.w * view.h
    ensures Scale(Size(imageSize.w * k, imageSize.h * k), view) * k == Scale(imageSize, view)
  {
    var big := Size(imageSize.w * k, imageSize.h * k);
    MagnifiedBranch(imageSize, view, k);
    HeightBased(imageSize, view);
    HeightBased(big, view);
    DivMagnified(view.h, imageSize.h, k, Scale(imageSize, view), Scale(big, view));
  }

  /** ScaleOfMagnified on the width-based branch. */
  lemma MagnifiedWidthBased(imageSize: Size, view: Size, k: real)
    requires Positive(imageSize) && Positive(view) && k > 0.0
    requires view.w * imageSize.h <= imageSize.w * view.h
    ensures Scale(Size(imageSize.w * k, imageSize.h * k), view) * k == Scale(imageSize, view)
  {
    var big := Size(imageSize.w * k, imageSize.h * k);
    MagnifiedBranch(imageSize, view, k);
    WidthBased(imageSize, view);
    WidthBased(big, view);
    DivMagnified(view.w, imageSize.w, k, Scale(imageSize, view), Scale(big, view));
  }

  /** Magnifying the image by `k > 0` leaves the scaled image where it was. */
  lemma FittedImageOfMagnified(imageSize: Size, view: Size, k: real)
    requires Positive(imageSize) && Positive(view) && k > 0.0
    ensures FittedImage(Size(imageSize.w * k, imageSize.h * k), view) == FittedImage(imageSize, view)
  {
    var big := Size(imageSize.w * k, imageSize.h * k);
    var s, t := Scale(imageSize, view), Scale(big, view);
    ScaleOfMagnified(imageSize, view, k);
    FittedFromScale(imageSize, view, s);
    FittedFromScale(big, view, t);
    CentredRegroup(view, imageSize.w, imageSize.h, k, t, s);
  }

  /** The centred rectangle of size (a, b) magnified by `k` and scaled by `t`
      is the one scaled by `t * k`. */
  lemma CentredRegroup(view: Size, a: real, b: real, k: real, t: real, s: real)
    requires t * k == s
    ensures Rect((view.w - a * k * t) / 2.0, (view.h - b * k * t) / 2.0, a * k * t, b * k * t)
            == Rect((view.w - a * s) / 2.0, (view.h - b * s) / 2.0, a * s, b * s)
  {
    Regroup(a, k, t, s);
    Regroup(b, k, t, s);
  }

  /** The fitted image in terms of a named scale factor. */
  lemma FittedFromScale(image: Size, view: Size, s: real)
    requires Positive(image) && NonNegative(view) && s == Scale(image, view)
    ensures FittedImage(image, view) == Rect((view.w - image.w * s) / 2.0, (view.h - image.h * s) / 2.0,
                                             image.w * s, image.h * s)
  {}


  /** Scale invariance: measuring the image and the feature in units `k`
      times smaller (every number multiplied by `k > 0`) gives the same
      output. */
  lemma ScaleInvariance(feature: Rect, imageSize: Size, viewFrame: Rect, k: real)
    requires Positive(imageSize) && Positive(SizeOf(viewFrame)) && k > 0.0
    ensures var big := Size(imageSize.w * k, imageSize.h * k);
            var f := Rect(feature.x * k, feature.y * k, feature.w * k, feature.h * k);
            CreateScaledFrame(f, big, viewFrame) == CreateScaledFrame(feature, imageSize, viewFrame)
  {
    var big := Size(imageSize.w * k, imageSize.h * k);
    var view := SizeOf(viewFrame);
    var s, t := Scale(imageSize, view), Scale(big, view);
    var f := Rect(feature.x * k, feature.y * k, feature.w * k, feature.h * k);
    ScaleOfMagnified(imageSize, view, k);
    FittedImageOfMagnified(imageSize, view, k);
    var fit := FittedImage(imageSize, view);
    calc {
      CreateScaledFrame(f, big, viewFrame);
      ScaleThenShift(f, t, fit.x, fit.y);
      { MagnifiedScaleThenShift(feature, k, t, s, fit.x, fit.y); }
      ScaleThenShift(feature, s, fit.x, fit.y);
      CreateScaledFrame(feature, imageSize, viewFrame);
    }
  }

  /** Distinct features get distinct overlay frames. */
  lemma Injective(f: Rect, g: Rect, imageSize: Size, viewFrame: Rect)
    requires Positive(imageSize) && Positive(SizeOf(viewFrame))
    requires CreateScaledFrame(f, imageSize, viewFrame) == CreateScaledFrame(g, imageSize, viewFrame)
    ensures f == g
  {
    var fit := FittedImage(imageSize, SizeOf(viewFrame));
    ScaleThenShiftInjective(f, g, Scale(imageSize, SizeOf(viewFrame)), fit.x, fit.y);
  }

  /** Worked example: a 100x200 image in a 200x200 view is height-constrained
      (scale 1, margin 50 on the left and on the right). */
  lemma ExampleHeightConstrained()
    ensures CreateScaledFrame(Rect(10.0, 10.0, 20.0, 20.0), Size(100.0, 200.0), Rect(0.0, 0.0, 200.0, 200.0))
            == Rect(60.0, 10.0, 20.0, 20.0)
  {
    assert Scale(Size(100.0, 200.0), Size(200.0, 200.0)) == 1.0;
  }

  /** Worked example: a 200x100 image in a 100x100 view is width-constrained
      (scale 1/2, margin 25 above and below). */
  lemma ExampleWidthConstrained()
    ensures CreateScaledFrame(Rect(20.0, 20.0, 40.0, 20.0), Size(200.0, 100.0), Rect(0.0, 0.0, 100.0, 100.0))
            == Rect(10.0, 35.0, 20.0, 10.0)
  {
    assert Scale(Size(200.0, 100.0), Size(100.0, 100.0)) == 0.5;
  }

  /** Invariance needs the same factor on the image and on the feature:
      doubling the image while halving the feature can change the output,
      as it does for the frame (10,10,20,20) with a 100x100 image in a
      100x100 view. */
  lemma DoubleImageHalveFeatureDiffers()
    ensures CreateScaledFrame(Rect(5.0, 5.0, 10.0, 10.0), Size(200.0, 200.0), Rect(0.0, 0.0, 100.0, 100.0))
            != CreateScaledFrame(Rect(10.0, 10.0, 20.0, 20.0), Size(100.0, 100.0), Rect(0.0, 0.0, 100.0, 100.0))
  {
    assert Scale(Size(200.0, 200.0), Size(100.0, 100.0)) == 0.5;
    assert Scale(Size(100.0, 100.0), Size(100.0, 100.0)) == 1.0;
  }

  /** A view with a zero width or height gets scale zero: every feature
      collapses to the empty rectangle at the view's centre. */
  lemma ZeroViewCollapses(feature: Rect, imageSize: Size, viewFrame: Rect)
    requires Positive(imageSize) && NonNegative(SizeOf(viewFrame))
    requires viewFrame.w == 0.0 || viewFrame.h == 0.0
    ensures CreateScaledFrame(feature, imageSize, viewFrame)
            == Rect(viewFrame.w / 2.0, viewFrame.h / 2.0, 0.0, 0.0)
  {
    assert Scale(imageSize, SizeOf(viewFrame)) == 0.0;
  }
}
