/** `highlight_motion_center` of src/motion_detect.py: pick the contour of the
    foreground mask with the largest area and, when that area exceeds a fixed
    5000, draw a filled red dot of radius 5 at the centre of its bounding box.

    OpenCV's contour tracing is not modelled: the contours arrive as records of
    what `cv2.contourArea` and `cv2.boundingRect` report for them, in the order
    `cv2.findContours` lists them. `cv2.circle` is modelled as a `Circle` value
    and its write into the frame as the colour of the centre pixel. */
module MotionDetect {
  import opened Wrappers

  /** One external contour: its area and its bounding rectangle. */
  datatype Contour = Contour(area: real, x: int, y: int, w: int, h: int)

  type Channel = c: int | 0 <= c < 256

  /** A pixel of a colour frame, in OpenCV's blue-green-red channel order. */
  datatype Bgr = Bgr(b: Channel, g: Channel, r: Channel)

  /** The arguments of one `cv2.circle` call; a negative thickness fills it. */
  datatype Circle = Circle(cx: int, cy: int, radius: int, colour: Bgr, thickness: int)

  /** The literal area threshold of the source; it is not the configured
      `motion_area_threshold`. */
  const AreaThreshold: real := 5000.0
  const DotRadius: int := 5
  const Red: Bgr := Bgr(0, 0, 255)
  const FilledThickness: int := -1

  /** `k` is where `max(contours, key=cv2.contourArea)` stops: no contour has a
      larger area and every contour before it has a strictly smaller one. */
  predicate IsFirstMax(cs: seq<Contour>, k: int) {
    && 0 <= k < |cs|
    && (forall j :: 0 <= j < |cs| ==> cs[j].area <= cs[k].area)
    && (forall j :: 0 <= j < k ==> cs[j].area < cs[k].area)
  }

  /** Python's `max` with a key: a left-to-right scan that replaces the
      current best only by a strictly larger one, so the first of equal
      maxima wins. */
  function LargestIndex(cs: seq<Contour>): (k: nat)
    requires |cs| > 0
    ensures IsFirstMax(cs, k)
    decreases |cs|
  {
    if |cs| == 1 then 0
    else
      var best := LargestIndex(cs[..|cs| - 1]);
      if cs[|cs| - 1].area > cs[best].area then |cs| - 1 else best
  }

  /** There is only one first maximum, so `LargestIndex` is determined by the
      property it promises. */
  lemma FirstMaxUnique(cs: seq<Contour>, k: int)
    requires IsFirstMax(cs, k)
    ensures k == LargestIndex(cs)
  {
  }

  /** `int(n / 2)`: the exact half, truncated toward zero as Python's `int`
      truncates a float. */
  function TruncHalf(n: int): (r: int)
    ensures n >= 0 ==> 0 <= 2 * r <= n < 2 * r + 2
    ensures n < 0 ==> 2 * r - 2 < n <= 2 * r <= 0
  {
    if n >= 0 then n / 2 else -((-n) / 2)
  }

  /** `int(origin + extent / 2)`: the float `origin + extent / 2` is exactly
      `(2 * origin + extent) / 2`. The centre lies inside the box whatever the
      sign of its origin; for non-negative coordinates it is `x + w // 2`. */
  function CentreCoord(origin: int, extent: int): (r: int)
    ensures extent >= 0 ==> origin <= r <= origin + extent
    ensures origin >= 0 && extent >= 0 ==> r == origin + extent / 2
  {
    TruncHalf(2 * origin + extent)
  }

  /** Truncation is toward zero, not floor: left of the origin the centre
      rounds up, so it differs from `x + w // 2`. */
  lemma CentreTruncatesTowardZero()
    ensures CentreCoord(-3, 1) == -2 && -3 + 1 / 2 == -3
  {
  }

  /** The dot drawn for a contour: filled, radius 5, red, at its box centre. */
  function MarkerFor(c: Contour): Circle {
    Circle(CentreCoord(c.x, c.w), CentreCoord(c.y, c.h), DotRadius, Red, FilledThickness)
  }

  /** Lines 15-31 as a decision: the single dot the call draws, if any. A dot
      is drawn exactly when some contour's area exceeds 5000 (then the largest
      one's does too), and it is always the fixed filled red dot of radius 5. */
  function MotionMarker(cs: seq<Contour>): (r: Option<Circle>)
    ensures r.Some? <==> exists i :: 0 <= i < |cs| && cs[i].area > AreaThreshold
    ensures r.Some? ==> r.value.radius == 5 && r.value.colour == Bgr(0, 0, 255) && r.value.thickness < 0
  {
    if |cs| == 0 then None
    else
      var largest := cs[LargestIndex(cs)];
      if largest.area > AreaThreshold then Some(MarkerFor(largest)) else None
  }

  /** The dot, when drawn, belongs to the first contour of largest area. */
  lemma MarkerOfFirstLargest(cs: seq<Contour>, k: int)
    requires IsFirstMax(cs, k) && cs[k].area > AreaThreshold
    ensures MotionMarker(cs) == Some(MarkerFor(cs[k]))
  {

  }

  /** A contour smaller than another one is never the one marked, however
      large its own area: the dot is at the centre of a contour of maximal area. */
  lemma MarkerIgnoresSmaller(cs: seq<Contour>)
    requires MotionMarker(cs).Some?
    ensures exists k :: IsFirstMax(cs, k) && MotionMarker(cs) == Some(MarkerFor(cs[k]))
  {

  }

  /** Area exactly 5000 draws nothing: the test is strict. */
  lemma ThresholdIsStrict(x: int, y: int, w: int, h: int)
    ensures MotionMarker([Contour(5000.0, x, y, w, h)]) == None
    ensures MotionMarker([Contour(5000.5, x, y, w, h)]).Some?
  {

  }

  /** One 100x100 square at the top-left corner, area 10000: the dot is at (50, 50). */
  lemma SquareAtOrigin()
    ensures MotionMarker([Contour(10000.0, 0, 0, 100, 100)]) == Some(Circle(50, 50, 5, Red, -1))
  {

  }

  /** Blobs of area 3000 and 7000: only the 7000 one is marked, and between two
      blobs over the threshold only the larger one is. */
  lemma LargerBlobWins(small: Contour, large: Contour)
    requires small.area < large.area && large.area > AreaThreshold
    ensures MotionMarker([small, large]) == Some(MarkerFor(large))
    ensures MotionMarker([large, small]) == Some(MarkerFor(large))
  {

  }

  /** Between two blobs of the same area the first listed is marked. */
  lemma TieGoesToFirst(first: Contour, second: Contour)
    requires first.area == second.area && first.area > AreaThreshold
    ensures MotionMarker([first, second]) == Some(MarkerFor(first))
  {

  }

  /** The colour of the pixel at (`row`, `col`) after drawing `m` over `before`. */
  function Painted(m: Option<Circle>, row: int, col: int, before: Bgr): Bgr {
    match m
    case None => before
    case Some(c) => if row == c.cy && col == c.cx then c.colour else before
  }

  /** `cv2.circle(img=frame, ...)`: writes the dot into the frame in place;
      a centre outside the frame is clipped away. Frame rows are `y`, columns `x`. */
  method DrawCircle(frame: array2<Bgr>, c: Circle)
    modifies frame
    ensures forall i, j :: 0 <= i < frame.Length0 && 0 <= j < frame.Length1 ==>
              frame[i, j] == Painted(Some(c), i, j, old(frame[i, j]))
  {
    if 0 <= c.cy < frame.Length0 && 0 <= c.cx < frame.Length1 {
      frame[c.cy, c.cx] := c.colour;
    }
  }

  /** `highlight_motion_center(frame, fgmask)`, given the contours found in a
      copy of `fgmask`. Only `frame` changes, and only by the one dot
      `MotionMarker` decides on; the call always returns `True`. */
  method HighlightMotionCenter(frame: array2<Bgr>, fgmask: array2<int>, contours: seq<Contour>)
    returns (done: bool)
    modifies frame
    ensures done
    ensures unchanged(fgmask)
    ensures forall i, j :: 0 <= i < frame.Length0 && 0 <= j < frame.Length1 ==>
              frame[i, j] == Painted(MotionMarker(contours), i, j, old(frame[i, j]))
  {
    var marker := MotionMarker(contours);
    if marker.Some? {
      DrawCircle(frame, marker.value);
    }
    done := true;
  }
}
