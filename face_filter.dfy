/**
 * The face-candidate filter of `utils.detect_faces_and_crop`: it walks the
 * detector's output in order and keeps a crop for every detection whose box is
 * not degenerate, does not cross the edge margin, yields a non-empty slice and,
 * when the detection carries a facial area, does not look like a side profile.
 */
module FaceFilter {
  import opened Wrappers

  /** Default `edge_margin_ratio` and `profile_threshold` of `detect_faces_and_crop`. */
  const DefaultEdgeMarginRatio: real := 0.005
  const DefaultProfileThreshold: real := 0.6

  datatype Point = Point(x: int, y: int)

  /**
   * The keys of a detection's `facial_area` dictionary that the filter reads;
   * `None` stands for a missing key.
   */
  datatype Region = Region(x: Option<int>, y: Option<int>, w: Option<int>, h: Option<int>,
                           leftEye: Option<Point>, rightEye: Option<Point>, nose: Option<Point>)

  /** One entry of the detector's output; `None` when it has no `facial_area` key. */
  datatype Detection = Detection(facialArea: Option<Region>)

  /** A loaded image (three colour channels); only its identity and shape matter here. */
  datatype Image = Image(id: nat, height: nat, width: nat)

  /** The sub-image `source[top : top + rows, left : left + cols]`. */
  datatype Crop = Crop(source: Image, top: nat, left: nat, rows: nat, cols: nat)

  /** `cv2.imread` returned `None`: the filter raises `ValueError`. */
  datatype FilterError = ImageNotLoaded

  /** The empty dictionary `{}` that `face.get("facial_area", {})` falls back to. */
  const EmptyRegion := Region(None, None, None, None, None, None, None)

  function AreaOf(d: Detection): Region {
    d.facialArea.GetOr(EmptyRegion)
  }

  /** A landmark, or `[0, 0]` when the key is missing. */
  function Landmark(p: Option<Point>): Point {
    p.GetOr(Point(0, 0))
  }

  /** Where a bound of the Python slice `s[i:]` or `s[:i]` lands in a sequence of length `n`. */
  function SliceBound(i: int, n: nat): (b: nat)
    ensures b <= n
    ensures 0 <= i <= n ==> b == i
  {
    if i < 0 then (if i + n < 0 then 0 else i + n)
    else if i > n then n
    else i
  }

  /** The length of the Python slice `s[start:stop]` over a sequence of length `n`. */
  function SliceLength(start: int, stop: int, n: nat): nat {
    var a, b := SliceBound(start, n), SliceBound(stop, n);
    if a < b then b - a else 0
  }

  /** `img[y : y + h, x : x + w]` with numpy's slice semantics. */
  function CropAt(img: Image, x: int, y: int, w: int, h: int): (c: Crop)
    ensures c.source == img
    ensures c.top + c.rows <= img.height && c.left + c.cols <= img.width
    ensures 0 <= y && y + h <= img.height && 0 <= h ==> c.top == y && c.rows == h
    ensures 0 <= x && x + w <= img.width && 0 <= w ==> c.left == x && c.cols == w
  {
    Crop(img, SliceBound(y, img.height), SliceBound(x, img.width),
         SliceLength(y, y + h, img.height), SliceLength(x, x + w, img.width))
  }

  predicate Degenerate(w: int, h: int) {
    w <= 0 || h <= 0
  }

  /** The box lies (strictly) inside the margin of `r` times the image width or height. */
  predicate NearEdge(x: int, y: int, w: int, h: int, imgW: nat, imgH: nat, r: real)
    ensures 0.0 <= r && !NearEdge(x, y, w, h, imgW, imgH, r) ==>
      0 <= x && x + w <= imgW && 0 <= y && y + h <= imgH
  {
    || (x as real) < (imgW as real) * r
    || (y as real) < (imgH as real) * r
    || ((x + w) as real) > (imgW as real) * (1.0 - r)
    || ((y + h) as real) > (imgH as real) * (1.0 - r)
  }

  function EyeDistanceSquared(le: Point, re: Point): nat {
    (le.x - re.x) * (le.x - re.x) + (le.y - re.y) * (le.y - re.y)
  }

  function Abs(v: real): (a: real)
    ensures a >= 0.0 && (a == v || a == -v)
  {
    if v < 0.0 then -v else v
  }

  /** Horizontal offset of the nose from the midpoint of the eyes. */
  function NoseToCenter(le: Point, re: Point, nose: Point): real {
    Abs((le.x + re.x) as real / 2.0 - nose.x as real)
  }

  /** The ratio the source computes, given the eye distance `dist`; 1.0 when the eyes coincide. */
  function AsymmetryRatio(le: Point, re: Point, nose: Point, dist: real): (ratio: real)
    ensures dist > 0.0 ==> 0.0 <= ratio && ratio * dist == NoseToCenter(le, re, nose)
    ensures dist <= 0.0 ==> ratio == 1.0
  {
    if dist > 0.0 then NoseToCenter(le, re, nose) / dist else 1.0
  }

  /**
   * The side-profile test `asymmetry_ratio > profile_threshold`, written without
   * a square root: `ProfileTestIsRatioTest` shows it agrees with the ratio.
   */
  predicate ProfileRejects(le: Point, re: Point, nose: Point, t: real)
    ensures t < 0.0 ==> ProfileRejects(le, re, nose, t)
    ensures EyeDistanceSquared(le, re) == 0 ==> (ProfileRejects(le, re, nose, t) <==> 1.0 > t)
  {
    var d2 := EyeDistanceSquared(le, re);
    var c := NoseToCenter(le, re, nose);
    if d2 == 0 then 1.0 > t
    else t < 0.0 || c * c > t * t * (d2 as real)
  }

  /** The box that `detect_faces_and_crop` reads from a detection, missing keys as 0. */
  function CropOf(d: Detection, img: Image): (c: Crop)
    ensures c.source == img && c.top + c.rows <= img.height && c.left + c.cols <= img.width
  {
    var a := AreaOf(d);
    CropAt(img, a.x.GetOr(0), a.y.GetOr(0), a.w.GetOr(0), a.h.GetOr(0))
  }

  /** A detection survives every test of the loop body. */
  predicate Accepts(d: Detection, img: Image, r: real, t: real)
    ensures Accepts(d, img, r, t) ==>
      && AreaOf(d) != EmptyRegion
      && AreaOf(d).w.GetOr(0) > 0 && AreaOf(d).h.GetOr(0) > 0
      && CropOf(d, img).rows > 0 && CropOf(d, img).cols > 0
  {
    var a := AreaOf(d);
    var x, y, w, h := a.x.GetOr(0), a.y.GetOr(0), a.w.GetOr(0), a.h.GetOr(0);
    var crop := CropOf(d, img);
    && !Degenerate(w, h)
    && !NearEdge(x, y, w, h, img.width, img.height, r)
    && crop.rows > 0 && crop.cols > 0
    && (a != EmptyRegion ==> !ProfileRejects(Landmark(a.leftEye), Landmark(a.rightEye), Landmark(a.nose), t))
  }

  /** The crops of the accepted detections, in detection order. */
  function Candidates(ds: seq<Detection>, img: Image, r: real, t: real): (out: seq<Crop>)
    ensures |out| <= |ds|
    ensures forall k :: 0 <= k < |out| ==> out[k].source == img && out[k].rows > 0 && out[k].cols > 0
    decreases |ds|
  {
    if |ds| == 0 then []
    else
      Candidates(ds[..|ds| - 1], img, r, t)
      + (if Accepts(ds[|ds| - 1], img, r, t) then [CropOf(ds[|ds| - 1], img)] else [])
  }

  /** The positions, in `ds`, of the detections that `Candidates` keeps. */
  ghost function AcceptedPositions(ds: seq<Detection>, img: Image, r: real, t: real): seq<nat>
    decreases |ds|
  {
    if |ds| == 0 then []
    else
      AcceptedPositions(ds[..|ds| - 1], img, r, t)
      + (if Accepts(ds[|ds| - 1], img, r, t) then [|ds| - 1] else [])
  }

  /** `detect_faces_and_crop` once the detector has run on the image `img` (`None`: unreadable). */
  method DetectFacesAndCrop(detections: seq<Detection>, img: Option<Image>,
                            edgeMarginRatio: real, profileThreshold: real)
    returns (r: Result<seq<Crop>, FilterError>)
    ensures img.None? ==> r == Failure(ImageNotLoaded)
    ensures img.Some? ==> r == Success(Candidates(detections, img.value, edgeMarginRatio, profileThreshold))
  {
    if img.None? {
      return Failure(ImageNotLoaded);
    }
    var image := img.value;
    var imgH, imgW := image.height, image.width;
    var croppedFaces: seq<Crop> := [];
    for i := 0 to |detections|
      invariant croppedFaces == Candidates(detections[..i], image, edgeMarginRatio, profileThreshold)
    {
      assert detections[..i + 1][..i] == detections[..i];
      var region := AreaOf(detections[i]);
      var x, y := region.x.GetOr(0), region.y.GetOr(0);
      var fw, fh := region.w.GetOr(0), region.h.GetOr(0);
      if fw <= 0 || fh <= 0 {
        continue;
      }
      if NearEdge(x, y, fw, fh, imgW, imgH, edgeMarginRatio) {
        continue;
      }
      var crop := CropAt(image, x, y, fw, fh);
      if crop.rows == 0 || crop.cols == 0 {
        continue;
      }
      var landmarks := region;
      if landmarks != EmptyRegion {
        var leftEye := Landmark(landmarks.leftEye);
        var rightEye := Landmark(landmarks.rightEye);
        var nose := Landmark(landmarks.nose);
        if ProfileRejects(leftEye, rightEye, nose, profileThreshold) {
          continue;
        }
      }
      croppedFaces := croppedFaces + [crop];
    }
    assert detections[..|detections|] == detections;
    return Success(croppedFaces);
  }

  /**
   * The output is exactly the crops of the accepted detections, as an
   * order-preserving subsequence of the input: no longer than the input, in
   * increasing positions, and containing every accepted detection.
   */
  lemma CandidatesAreAcceptedSubsequence(ds: seq<Detection>, img: Image, r: real, t: real)
    ensures var out, pos := Candidates(ds, img, r, t), AcceptedPositions(ds, img, r, t);
      && |out| == |pos| <= |ds|
      && (forall k :: 0 <= k < |pos| ==>
            pos[k] < |ds| && Accepts(ds[pos[k]], img, r, t) && out[k] == CropOf(ds[pos[k]], img))
      && (forall k, l :: 0 <= k < l < |pos| ==> pos[k] < pos[l])
      && (forall j :: 0 <= j < |ds| ==> (Accepts(ds[j], img, r, t) <==> j in pos))
  {
    CandidatesAtAcceptedPositions(ds, img, r, t);
    AcceptedPositionsComplete(ds, img, r, t);
  }

  lemma {:induction false} CandidatesAtAcceptedPositions(ds: seq<Detection>, img: Image, r: real, t: real)
    ensures var out, pos := Candidates(ds, img, r, t), AcceptedPositions(ds, img, r, t);
      && |out| == |pos| <= |ds|
      && (forall k :: 0 <= k < |pos| ==>
            pos[k] < |ds| && Accepts(ds[pos[k]], img, r, t) && out[k] == CropOf(ds[pos[k]], img))
      && (forall k, l :: 0 <= k < l < |pos| ==> pos[k] < pos[l])
  {
    if |ds| > 0 {
      var front := ds[..|ds| - 1];
      CandidatesAtAcceptedPositions(front, img, r, t);
      var pos0 := AcceptedPositions(front, img, r, t);
      assert forall k :: 0 <= k < |pos0| ==> ds[pos0[k]] == front[pos0[k]];
    }
  }

  lemma {:induction false} AcceptedPositionsComplete(ds: seq<Detection>, img: Image, r: real, t: real)
    ensures forall j :: 0 <= j < |ds| ==> (Accepts(ds[j], img, r, t) <==> j in AcceptedPositions(ds, img, r, t))
  {
    if |ds| > 0 {
      var n := |ds|;
      var front := ds[..n - 1];
      AcceptedPositionsComplete(front, img, r, t);
      CandidatesAtAcceptedPositions(front, img, r, t);
      var pos0 := AcceptedPositions(front, img, r, t);
      var pos := AcceptedPositions(ds, img, r, t);
      forall j | 0 <= j < n
        ensures Accepts(ds[j], img, r, t) <==> j in pos
      {
        if j < n - 1 {
          assert ds[j] == front[j];
          assert j in pos0 <==> j in pos;
        } else {
          assert n - 1 !in pos0;
        }
      }
    }
  }

  /**
   * Once a detection's box has passed the degenerate-box and edge tests with a
   * non-negative margin ratio, it lies inside the image and the numpy slice is
   * exactly the box, so the `crop.size == 0` test never fires.
   */
  lemma InteriorBoxCropsExactly(img: Image, x: int, y: int, w: int, h: int, r: real)
    requires 0.0 <= r
    requires !Degenerate(w, h) && !NearEdge(x, y, w, h, img.width, img.height, r)
    ensures 0 <= x && x + w <= img.width && 0 <= y && y + h <= img.height
    ensures CropAt(img, x, y, w, h) == Crop(img, y, x, h, w)
  {
    var W, H := img.width as real, img.height as real;
    assert W * r >= 0.0 && H * r >= 0.0;
    assert W * (1.0 - r) == W - W * r;
    assert H * (1.0 - r) == H - H * r;
  }

  /**
   * With a non-negative margin ratio the detection behind output crop `k`
   * has a box of positive size inside the image, and the crop is exactly that
   * box: `h` rows from `y`, `w` columns from `x`.
   */
  lemma KeptBoxLiesInside(ds: seq<Detection>, img: Image, r: real, t: real, k: nat)
    requires 0.0 <= r && k < |Candidates(ds, img, r, t)|
    ensures k < |AcceptedPositions(ds, img, r, t)| && AcceptedPositions(ds, img, r, t)[k] < |ds|
    ensures var a := AreaOf(ds[AcceptedPositions(ds, img, r, t)[k]]);
      var x, y, w, h := a.x.GetOr(0), a.y.GetOr(0), a.w.GetOr(0), a.h.GetOr(0);
      && 0 < w && 0 < h
      && 0 <= x && x + w <= img.width && 0 <= y && y + h <= img.height
      && Candidates(ds, img, r, t)[k] == Crop(img, y, x, h, w)
  {
    CandidatesAtAcceptedPositions(ds, img, r, t);
    var a := AreaOf(ds[AcceptedPositions(ds, img, r, t)[k]]);
    InteriorBoxCropsExactly(img, a.x.GetOr(0), a.y.GetOr(0), a.w.GetOr(0), a.h.GetOr(0), r);
  }

  /**
   * Every accepted detection passed the profile test: a non-degenerate box
   * needs a `w` key, so its facial area is never the empty dictionary.
   */
  lemma AcceptsMeansAllTestsPassed(d: Detection, img: Image, r: real, t: real)
    ensures var a := AreaOf(d);
      var x, y, w, h := a.x.GetOr(0), a.y.GetOr(0), a.w.GetOr(0), a.h.GetOr(0);
      Accepts(d, img, r, t) <==>
        && !Degenerate(w, h)
        && !NearEdge(x, y, w, h, img.width, img.height, r)
        && CropOf(d, img).rows > 0 && CropOf(d, img).cols > 0
        && !ProfileRejects(Landmark(a.leftEye), Landmark(a.rightEye), Landmark(a.nose), t)
  {
  }

  lemma PositiveProduct(u: real, v: real)
    requires 0.0 < u && 0.0 < v
    ensures u * v > 0.0
  {
  }

  lemma NonNegativeProduct(u: real, v: real)
    requires 0.0 <= u && 0.0 <= v
    ensures u * v >= 0.0
  {
  }

  lemma PositiveSquare(x: real)
    requires 0.0 < x
    ensures x * x > 0.0
  {
  }

  /** Multiplying by a positive real preserves the strict order. */
  lemma ScaleMonotone(a: real, b: real, k: real)
    requires 0.0 < k
    ensures a > b <==> a * k > b * k
  {
    assert a * k - b * k == (a - b) * k;
    if a > b {
      PositiveProduct(a - b, k);
    } else {
      NonNegativeProduct(b - a, k);
    }
  }

  /** Squaring preserves the strict order of non-negative reals. */
  lemma SquareMonotone(a: real, b: real)
    requires 0.0 <= a && 0.0 <= b
    ensures a > b <==> a * a > b * b
  {
    assert a * a - b * b == (a - b) * (a + b);
    if a > b {
      PositiveProduct(a - b, a + b);
    } else {
      NonNegativeProduct(b - a, a + b);
      assert b * b - a * a == (b - a) * (a + b);
    }
  }

  lemma DivideCompare(c: real, dist: real, t: real)
    requires 0.0 < dist
    ensures c / dist > t <==> c > t * dist
  {
    var q := c / dist;
    assert q * dist == c;
    ScaleMonotone(q, t, dist);
  }

  /** The profile test on plain reals: `c` the nose offset, `dist` the eye distance, `d2` its square. */
  lemma RatioTestInSquares(c: real, t: real, dist: real, d2: real)
    requires 0.0 <= c && 0.0 <= dist && d2 == dist * dist
    ensures (if d2 == 0.0 then 1.0 > t else t < 0.0 || c * c > t * t * d2)
            <==> (if dist > 0.0 then c / dist else 1.0) > t
  {
    if dist > 0.0 {
      calc {
        d2;
      ==
        dist * dist;
      >  { PositiveSquare(dist); }
        0.0;
      }
      if t >= 0.0 {
        calc {
          c / dist > t;
        <==> { DivideCompare(c, dist, t); }
          c > t * dist;
        <==> { NonNegativeProduct(t, dist); SquareMonotone(c, t * dist); }
          c * c > (t * dist) * (t * dist);
        <==> { assert (t * dist) * (t * dist) == t * t * (dist * dist); }
          c * c > t * t * d2;
        }
      } else {
        calc {
          c / dist > t;
        <==> { DivideCompare(c, dist, t); }
          c > t * dist;
        <==> { PositiveProduct(-t, dist); }
          true;
        }
      }
    }
  }

  /**
   * The square-based profile test agrees with the source's
   * `asymmetry_ratio > profile_threshold` for the eye distance `dist`
   * (the square root of `EyeDistanceSquared`), including the 1.0 fallback
   * when the eyes coincide.
   */
  lemma ProfileTestIsRatioTest(le: Point, re: Point, nose: Point, t: real, dist: real)
    requires 0.0 <= dist && dist * dist == EyeDistanceSquared(le, re) as real
    ensures ProfileRejects(le, re, nose, t) <==> AsymmetryRatio(le, re, nose, dist) > t
  {
    RatioTestInSquares(NoseToCenter(le, re, nose), t, dist, EyeDistanceSquared(le, re) as real);
  }

  /** Coinciding eyes give ratio 1.0: rejected iff 1.0 exceeds the threshold, so always at 0.6. */
  lemma ZeroEyeDistanceRejected(le: Point, nose: Point, t: real)
    ensures ProfileRejects(le, le, nose, t) <==> 1.0 > t
    ensures ProfileRejects(le, le, nose, DefaultProfileThreshold)
  {
  }

  /** A ratio of exactly 0.6 is kept at the default threshold; 0.61 is rejected. */
  lemma ProfileBoundaryExample()
    ensures !ProfileRejects(Point(0, 0), Point(10, 0), Point(-1, 0), DefaultProfileThreshold)
    ensures AsymmetryRatio(Point(0, 0), Point(10, 0), Point(-1, 0), 10.0) == 0.6
    ensures ProfileRejects(Point(0, 0), Point(100, 0), Point(-11, 0), DefaultProfileThreshold)
    ensures AsymmetryRatio(Point(0, 0), Point(100, 0), Point(-11, 0), 100.0) == 0.61
  {
  }

  /** A frontal face box of width and height 100 whose left edge is at `x`. */
  function FrontalFaceAt(x: int): Detection {
    Detection(Some(Region(Some(x), Some(500), Some(100), Some(100),
                          Some(Point(x + 20, 530)), Some(Point(x + 80, 530)), Some(Point(x + 50, 560)))))
  }

  /**
   * With a 1000x1000 image and the default margin ratio the margin is 5 pixels:
   * a box starting at x = 4 is rejected, at x = 5 (on the margin) and x = 6 kept.
   */
  lemma EdgeMarginExample()
    ensures var img := Image(0, 1000, 1000);
      && !Accepts(FrontalFaceAt(4), img, DefaultEdgeMarginRatio, DefaultProfileThreshold)
      && Accepts(FrontalFaceAt(5), img, DefaultEdgeMarginRatio, DefaultProfileThreshold)
      && Accepts(FrontalFaceAt(6), img, DefaultEdgeMarginRatio, DefaultProfileThreshold)
  {
  }
}
