/**
 * Where the two controllers part ways on the same frame and the same oracle answers.
 * Both are kept as separate models; these lemmas pin down their differences.
 */
module Variants {
  import opened Wrappers
  import opened Geometry
  import opened Detector
  import opened Events
  import Controller
  import LegacyTracker

  /**
   * On the first frame with a car, both create and initialise a tracker with the same
   * ROI, but only the newer controller reports the detection.
   */
  lemma FirstDetectionDiffers(input: FrameInput, d: Rect)
    requires DetectObject(input.detections) == Some(d)
    ensures var r := Controller.AnalyzeImage(Controller.SetTrackingCallback(Controller.Initial), input);
      r.events == [Event(Some(d), input.frame)] && r.state.roi == Some(GetRoi(d))
    ensures var r := LegacyTracker.AnalyzeImage(LegacyTracker.SetTrackingCallback(LegacyTracker.Initial), input);
      r.events == [] && r.state.roi == Some(GetRoi(d))
  {
    LegacyTracker.InitialIsValid();
  }

  /**
   * With a tracker and the same empty ROI, the newer controller re-emits the ROI without
   * consulting anything, while the older one treats it as a failure and detects.
   */
  lemma EmptyRoiDiffers(c: Controller.ControllerState, l: LegacyTracker.LegacyState, input: FrameInput)
    requires c.tracker.IsInit() && c.roi.Some? && c.roi.value.Empty()
    requires LegacyTracker.Valid(l) && l.tracker.Some? && l.roi == c.roi
    ensures Controller.AnalyzeImage(c, input).calls == []
    ensures DetectCall in LegacyTracker.AnalyzeImage(l, input).calls
  {
  }

  /**
   * After a failed update and an unsuccessful re-detection, the newer controller drops
   * its ROI while the older one keeps one.
   */
  lemma LostTargetDiffers(c: Controller.ControllerState, l: LegacyTracker.LegacyState, input: FrameInput)
    requires c.tracker.IsInit() && Controller.WillUpdate(c)
    requires LegacyTracker.Valid(l) && l.tracker.Some? && LegacyTracker.WillUpdate(l)
    requires !input.native.success && DetectObject(input.detections).None?
    ensures Controller.AnalyzeImage(c, input).state.roi.None?
    ensures LegacyTracker.AnalyzeImage(l, input).state.roi == Some(input.native.rect)
  {
  }
}
