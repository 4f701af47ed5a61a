/**
 * The two rectangle types the controllers convert between:
 * - `Rect`, Android's edge form (left, top, right, bottom), used for detections and callbacks;
 * - `Roi`, OpenCV's origin-and-size form (x, y, width, height), used by the CSRT tracker.
 * Coordinates are unbounded integers; the 32-bit wrap-around of `x + width` in `roiToRect`
 * and of `right - left` in `Rect.width()` (used by `getRoi`) is not modelled.
 */
module Geometry {

  /** android.graphics.Rect */
  datatype Rect = Rect(left: int, top: int, right: int, bottom: int) {

    /** `Rect.width()`: no normalisation, so it may be negative. */
    function Width(): int { right - left }

    /** `Rect.height()` */
    function Height(): int { bottom - top }
  }

  /** org.opencv.core.Rect */
  datatype Roi = Roi(x: int, y: int, width: int, height: int) {

    /** `Rect.empty()`: a box with no positive area. */
    predicate Empty() { width <= 0 || height <= 0 }
  }

  /**
   * `roiToRect`: the edge form of an ROI. It keeps the ROI's origin as the top-left
   * corner and its size as the rectangle's width and height.
   */
  function RoiToRect(roi: Roi): (r: Rect)
    ensures r.left == roi.x && r.top == roi.y
    ensures r.Width() == roi.width && r.Height() == roi.height
  {
    Rect(roi.x, roi.y, roi.x + roi.width, roi.y + roi.height)
  }

  /**
   * `getRoi` (and the inline `cvRect(left, top, width(), height())` of the newer
   * controller): the origin-and-size form of a rectangle. `toDouble().toInt()` is the
   * identity on 32-bit integers, so it does not appear. Converting back gives the
   * rectangle itself, and the ROI is empty exactly when the rectangle has no positive area.
   */
  function GetRoi(r: Rect): (roi: Roi)
    ensures RoiToRect(roi) == r
    ensures roi.Empty() <==> r.Width() <= 0 || r.Height() <= 0
  {
    Roi(r.left, r.top, r.Width(), r.Height())
  }

  /** The other direction of the round trip: every ROI is the ROI of its own rectangle. */
  lemma RoiRoundTrip(roi: Roi)
    ensures GetRoi(RoiToRect(roi)) == roi
  {
  }

  /** The two conversions are injective, so distinct ROIs are never reported as the same rectangle. */
  lemma RoiToRectInjective(a: Roi, b: Roi)
    ensures RoiToRect(a) == RoiToRect(b) <==> a == b
  {
    RoiRoundTrip(a);
    RoiRoundTrip(b);
  }
}
