/**
 * Grid location, `detect_bubble_grid`: among the external contours of the
 * edge map, keep the first one of strictly greatest positive area, and crop
 * the image to its bounding rectangle. Edge detection, contour tracing,
 * `contourArea` and `boundingRect` are library calls, so each contour comes
 * in already reduced to its area and its bounding box.
 */
module GridLocator {
  import opened Wrappers
  import opened Images
  import opened OmrErrors

  /** An axis-aligned rectangle `(x, y, w, h)` as `cv2.boundingRect` gives it. */
  datatype Box = Box(x: nat, y: nat, w: nat, h: nat)

  datatype Contour = Contour(area: real, box: Box)

  /** The cropped grid and the box it was cut from. */
  datatype GridRegion = GridRegion(image: Gray, box: Box)

  predicate BoxInside(img: Gray, b: Box) {
    b.y + b.h <= |img| && b.x + b.w <= Width(img)
  }

  /**
   * `img[y:y+h, x:x+w]`. For a box inside the image the crop has `h` rows of
   * `w` pixels, pixel (r, c) being pixel (y + r, x + c) of the image.
   */
  function Crop(img: Gray, b: Box): (g: Gray)
    ensures IsImage(img) ==> IsImage(g)
    ensures IsImage(img) && BoxInside(img, b) ==>
      |g| == b.h &&
      (forall r :: 0 <= r < b.h ==> |g[r]| == b.w) &&
      (forall r, c :: 0 <= r < b.h && 0 <= c < b.w ==> g[r][c] == img[b.y + r][b.x + c])
  {
    Slice2D(img, b.y, b.y + b.h, b.x, b.x + b.w)
  }

  /** Contour k has positive area, beats every earlier one strictly, and no later one beats it. */
  predicate IsFirstLargest(cs: seq<Contour>, k: nat) {
    && k < |cs|
    && cs[k].area > 0.0
    && (forall j :: 0 <= j < k ==> cs[j].area < cs[k].area)
    && (forall j :: k < j < |cs| ==> cs[j].area <= cs[k].area)
  }

  /** The area a candidate has to beat: that of the one chosen so far, or 0. */
  function Best(cs: seq<Contour>, chosen: Option<nat>): real {
    if chosen.Some? && chosen.value < |cs| then cs[chosen.value].area else 0.0
  }

  /** The contour the running maximum keeps after scanning `cs`. */
  function FirstLargest(cs: seq<Contour>): (r: Option<nat>)
    ensures r.Some? ==> r.value < |cs|
  {
    if |cs| == 0 then None
    else
      var front := cs[..|cs| - 1];
      var p := FirstLargest(front);
      if cs[|cs| - 1].area > Best(front, p) then Some(|cs| - 1) else p
  }

  /**
   * The running maximum chooses exactly the first contour of strictly
   * greatest positive area, and chooses nothing exactly when no contour has
   * positive area.
   */
  lemma {:induction false} FirstLargestIsFirstMaximum(cs: seq<Contour>)
    ensures FirstLargest(cs).None? <==> forall j :: 0 <= j < |cs| ==> cs[j].area <= 0.0
    ensures FirstLargest(cs).Some? ==> IsFirstLargest(cs, FirstLargest(cs).value)
  {
    if |cs| > 0 {
      var front := cs[..|cs| - 1];
      FirstLargestIsFirstMaximum(front);
      assert forall j :: 0 <= j < |front| ==> front[j] == cs[j];
    }
  }

  /** Only one contour can be the first of strictly greatest area. */
  lemma FirstLargestUnique(cs: seq<Contour>, k1: nat, k2: nat)
    requires IsFirstLargest(cs, k1) && IsFirstLargest(cs, k2)
    ensures k1 == k2
  {
  }

  /** What `detect_bubble_grid` returns, or the exception it raises. */
  function LocateGrid(img: Gray, cs: seq<Contour>): Result<GridRegion, Error> {
    match FirstLargest(cs)
    case None => Failure(GridNotFound)
    case Some(k) => Success(GridRegion(Crop(img, cs[k].box), cs[k].box))
  }

  /**
   * The grid is not found exactly when no contour has positive area;
   * otherwise the region is the crop of the first strictly largest contour's
   * box, and the coordinates returned are that box.
   */
  lemma LocateGridSpec(img: Gray, cs: seq<Contour>)
    ensures LocateGrid(img, cs) == Failure(GridNotFound) <==> forall j :: 0 <= j < |cs| ==> cs[j].area <= 0.0
    ensures LocateGrid(img, cs).Success? ==>
      exists k: nat :: IsFirstLargest(cs, k) &&
        LocateGrid(img, cs).value == GridRegion(Crop(img, cs[k].box), cs[k].box)
  {
    FirstLargestIsFirstMaximum(cs);
  }

  /** The selection loop of `detect_bubble_grid`: `largest_area` and `bubble_grid` as loop state. */
  method SelectLargest(cs: seq<Contour>) returns (chosen: Option<nat>)
    ensures chosen == FirstLargest(cs)
    ensures chosen.None? <==> forall j :: 0 <= j < |cs| ==> cs[j].area <= 0.0
    ensures chosen.Some? ==> IsFirstLargest(cs, chosen.value)
  {
    var largestArea := 0.0;
    chosen := None;
    for i := 0 to |cs|
      invariant chosen == FirstLargest(cs[..i])
      invariant largestArea == Best(cs[..i], chosen)
    {
      assert cs[..i + 1][..i] == cs[..i];
      var area := cs[i].area;
      if area > largestArea {
        largestArea := area;
        chosen := Some(i);
      }
    }
    assert cs[..|cs|] == cs;
    FirstLargestIsFirstMaximum(cs);
  }

  /** `detect_bubble_grid` from the selection on: raise, or crop to the chosen box. */
  method DetectBubbleGrid(img: Gray, cs: seq<Contour>) returns (r: Result<GridRegion, Error>)
    ensures r == LocateGrid(img, cs)
    ensures r.Failure? <==> forall j :: 0 <= j < |cs| ==> cs[j].area <= 0.0
    ensures r.Failure? ==> r.error == GridNotFound
  {
    var chosen := SelectLargest(cs);
    if chosen.None? {
      return Failure(GridNotFound);
    }
    var b := cs[chosen.value].box;
    r := Success(GridRegion(Crop(img, b), b));
  }
}
