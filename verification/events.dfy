/**
 * What both controller variants share: the frames they are fed, the callback events they
 * emit, the calls they make into the detector and the tracker, and the oracle outcomes
 * supplied for each frame.
 */
module Events {
  import opened Wrappers
  import opened Geometry
  import opened Detector
  import opened CsrtTracker

  /** The bitmap handed to `analyzeImage`; only its identity matters to the controllers. */
  datatype Frame = Frame(id: nat)

  /** One `onObjectDetected(rect, src)` callback. */
  datatype Event = Event(rect: Option<Rect>, src: Frame)

  /** A call into an external collaborator, in the order the controller makes them. */
  datatype Action = DetectCall | CreateCall | InitCall(roi: Roi) | UpdateCall

  /**
   * One frame together with what the oracles answer for it: the inference library's raw
   * results (consulted if the controller detects) and the native tracker's update
   * outcome (consulted if the controller tracks).
   */
  datatype FrameInput = FrameInput(frame: Frame, detections: seq<Detection>, native: NativeUpdate)

  /** `trackingCallback?.onObjectDetected(rect, frame)`: one event when a callback is set, none otherwise. */
  function Notify(hasCallback: bool, rect: Option<Rect>, frame: Frame): (es: seq<Event>)
    ensures |es| == (if hasCallback then 1 else 0)
    ensures forall e | e in es :: e == Event(rect, frame)
  {
    if hasCallback then [Event(rect, frame)] else []
  }

  /** No frame's raw results carry a car category. */
  ghost predicate NoTargetAnywhere(inputs: seq<FrameInput>) {
    forall n, i :: 0 <= n < |inputs| && 0 <= i < |inputs[n].detections| ==> !HasTarget(inputs[n].detections[i])
  }
}
