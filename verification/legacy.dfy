/**
 * The older controller, `ObjectTracker.analyzeImage` in the root ObjectTracker.kt, which is
 * the one the app instantiates. It drives the native CSRT tracker directly. Unlike the
 * newer controller it emits nothing while it has no tracker, treats an empty ROI as a
 * tracking failure, writes the native update's rectangle into the ROI whether or not the
 * update succeeds, and keeps that ROI when re-detection also fails.
 */
module LegacyTracker {
  import opened Wrappers
  import opened Geometry
  import opened Detector
  import opened CsrtTracker
  import opened Events

  /** The fields: native `tracker`, `detectedObjectRect`, `roi`, and whether a callback is set. */
  datatype LegacyState = LegacyState(tracker: Option<Csrt>, detectedObjectRect: Option<Rect>,
                                     roi: Option<Roi>, hasCallback: bool)

  /** A freshly constructed tracker object. */
  const Initial: LegacyState := LegacyState(None, None, None, false)

  /** The outcome of one call: the new state, the callbacks emitted and the external calls made. */
  datatype Step = Step(state: LegacyState, events: seq<Event>, calls: seq<Action>)

  /**
   * The three nullable fields are set together on the first detection and never cleared,
   * and only one native tracker is ever created.
   */
  predicate Valid(s: LegacyState) {
    && (s.tracker.Some? <==> s.roi.Some?)
    && (s.tracker.Some? <==> s.detectedObjectRect.Some?)
    && (s.tracker.Some? ==> s.tracker.value.generation == 0)
  }

  lemma InitialIsValid()
    ensures Valid(Initial) && Initial.tracker.None?
  {
  }

  /** `setTrackingCallback` */
  function SetTrackingCallback(s: LegacyState): (s': LegacyState)
    ensures s'.hasCallback && s'.tracker == s.tracker && s'.roi == s.roi
    ensures s'.detectedObjectRect == s.detectedObjectRect
  {
    s.(hasCallback := true)
  }

  /** Whether the tracker is updated this frame: the stored ROI is not empty. */
  predicate WillUpdate(s: LegacyState) {
    s.roi.Some? && !s.roi.value.Empty()
  }

  /** Whether tracking fails this frame: the ROI is empty, or the native update reports failure. */
  predicate TrackingFails(s: LegacyState, input: FrameInput) {
    !WillUpdate(s) || !input.native.success
  }

  /**
   * `analyzeImage` for one frame. The invariant is kept; while there is no tracker no
   * callback is emitted at all; once there is one, exactly one is emitted per call (when
   * a callback is set) and the tracker is never replaced.
   */
  function AnalyzeImage(s: LegacyState, input: FrameInput): (r: Step)
    requires Valid(s)
    ensures Valid(r.state)
    ensures r.state.hasCallback == s.hasCallback
    ensures s.tracker.None? ==> r.events == []
    ensures s.tracker.Some? ==> |r.events| == (if s.hasCallback then 1 else 0)
    ensures forall e | e in r.events :: e.src == input.frame
    ensures s.tracker.Some? ==> r.state.tracker.Some? && CreateCall !in r.calls
  {
    if s.tracker.None? then
      match DetectObject(input.detections)
      case Some(d) =>
        var roi := GetRoi(d);
        Step(s.(tracker := Some(Csrt(0, None).Init(roi)), roi := Some(roi), detectedObjectRect := Some(d)),
             [],
             [DetectCall, CreateCall, InitCall(roi)])
      case None =>
        Step(s, [], [DetectCall])
    else
      var updated := WillUpdate(s);
      var success := updated && input.native.success;
      var roi := if updated then input.native.rect else s.roi.value;
      if success then
        Step(s.(roi := Some(roi)), Notify(s.hasCallback, Some(RoiToRect(roi)), input.frame), [UpdateCall])
      else
        match DetectObject(input.detections)
        case Some(d) =>
          var roi' := GetRoi(d);
          Step(s.(detectedObjectRect := Some(d), roi := Some(roi'), tracker := Some(s.tracker.value.Init(roi'))),
               Notify(s.hasCallback, Some(RoiToRect(roi')), input.frame),
               if updated then [UpdateCall, DetectCall, InitCall(roi')] else [DetectCall, InitCall(roi')])
        case None =>
          Step(s.(roi := Some(roi)), Notify(s.hasCallback, None, input.frame),
               if updated then [UpdateCall, DetectCall] else [DetectCall])
  }

  /**
   * First detection: the tracker is created and initialised with the ROI
   * (left, top, width, height), the detection is recorded, and NO callback is emitted,
   * even with a callback set.
   */
  lemma FirstDetectionIsSilent(s: LegacyState, input: FrameInput, d: Rect)
    requires Valid(s) && s.tracker.None? && DetectObject(input.detections) == Some(d)
    ensures var r := AnalyzeImage(s, input); var roi := Roi(d.left, d.top, d.Width(), d.Height());
      && r.state.tracker == Some(Csrt(0, Some(roi)))
      && r.state.roi == Some(roi)
      && r.state.detectedObjectRect == Some(d)
      && r.events == []
      && r.calls == [DetectCall, CreateCall, InitCall(roi)]
  {
  }

  /** No detection without a tracker: nothing changes and nothing is emitted. */
  lemma NothingDetected(s: LegacyState, input: FrameInput)
    requires Valid(s) && s.tracker.None? && DetectObject(input.detections).None?
    ensures var r := AnalyzeImage(s, input);
      r.state == s && r.events == [] && r.calls == [DetectCall]
  {
  }

  /**
   * An empty ROI is a tracking failure: the tracker is not updated and the frame goes
   * to re-detection.
   */
  lemma EmptyRoiFails(s: LegacyState, input: FrameInput)
    requires Valid(s) && s.tracker.Some? && s.roi.value.Empty()
    ensures var r := AnalyzeImage(s, input);
      r.calls == match DetectObject(input.detections)
        case Some(d) => [DetectCall, InitCall(GetRoi(d))]
        case None => [DetectCall]
  {
  }

  /**
   * Successful update: the ROI becomes the rectangle the tracker wrote and its edge form
   * is emitted; nothing is detected.
   */
  lemma TrackingSucceeds(s: LegacyState, input: FrameInput)
    requires Valid(s) && s.tracker.Some? && WillUpdate(s) && input.native.success
    ensures var r := AnalyzeImage(s, input); var b := input.native.rect;
      && r.state == s.(roi := Some(b))
      && r.events == Notify(s.hasCallback, Some(Rect(b.x, b.y, b.x + b.width, b.y + b.height)), input.frame)
      && r.calls == [UpdateCall]
  {
  }

  /**
   * Re-detection after a failure: the same tracker is re-initialised with the new ROI,
   * the detection is recorded, and the rectangle emitted is the detection itself, because
   * converting it to an ROI and back gives it unchanged.
   */
  lemma Reacquired(s: LegacyState, input: FrameInput, d: Rect)
    requires Valid(s) && s.tracker.Some? && TrackingFails(s, input)
    requires DetectObject(input.detections) == Some(d)
    ensures var r := AnalyzeImage(s, input);
      && r.state.tracker == Some(Csrt(s.tracker.value.generation, Some(GetRoi(d))))
      && r.state.roi == Some(GetRoi(d))
      && r.state.detectedObjectRect == Some(d)
      && r.events == Notify(s.hasCallback, Some(d), input.frame)
      && r.calls == (if WillUpdate(s) then [UpdateCall, DetectCall, InitCall(GetRoi(d))]
                     else [DetectCall, InitCall(GetRoi(d))])
  {
    assert RoiToRect(GetRoi(d)) == d;
  }

  /**
   * Failure and no re-detection: null is emitted; the tracker and the recorded detection
   * stay, and the ROI is kept as it stands after the failed step (the old empty ROI, or
   * whatever the failed native update wrote).
   */
  lemma FailureKeepsTracker(s: LegacyState, input: FrameInput)
    requires Valid(s) && s.tracker.Some? && TrackingFails(s, input)
    requires DetectObject(input.detections).None?
    ensures var r := AnalyzeImage(s, input);
      && r.state.tracker == s.tracker
      && r.state.detectedObjectRect == s.detectedObjectRect
      && r.state.roi == Some(if WillUpdate(s) then input.native.rect else s.roi.value)
      && r.events == Notify(s.hasCallback, None, input.frame)
  {
  }

  /** Whatever rectangle is emitted is the edge form of the ROI now stored. */
  lemma EmittedRectMatchesRoi(s: LegacyState, input: FrameInput)
    requires Valid(s)
    ensures var r := AnalyzeImage(s, input);
      forall e | e in r.events && e.rect.Some? :: r.state.roi.Some? && e.rect.value == RoiToRect(r.state.roi.value)
  {
    var r := AnalyzeImage(s, input);
    if s.tracker.Some? && TrackingFails(s, input) {
      match DetectObject(input.detections)
      case Some(d) =>
      case None =>
        assert forall e | e in r.events :: e.rect.None?;
    }
  }

  /** The older controller over a sequence of frames. */
  function Run(s: LegacyState, inputs: seq<FrameInput>): (r: Step)
    requires Valid(s)
    ensures Valid(r.state)
    ensures s.tracker.Some? ==> |r.events| == (if s.hasCallback then |inputs| else 0)
    ensures s.tracker.Some? ==> r.state.tracker.Some? && CreateCall !in r.calls
    ensures r.state.hasCallback == s.hasCallback
    decreases |inputs|
  {
    if |inputs| == 0 then Step(s, [], [])
    else
      var first := AnalyzeImage(s, inputs[0]);
      var rest := Run(first.state, inputs[1..]);
      Step(rest.state, first.events + rest.events, first.calls + rest.calls)
  }

  /**
   * Over frames that never contain the target class, the older controller without a
   * tracker stays as it is and emits no callback at all.
   */
  lemma {:induction false} SilentWithoutTarget(s: LegacyState, inputs: seq<FrameInput>)
    requires Valid(s) && s.tracker.None? && NoTargetAnywhere(inputs)
    ensures Run(s, inputs).state == s && Run(s, inputs).events == []
    decreases |inputs|
  {
    if |inputs| > 0 {
      assert DetectObject(inputs[0].detections).None?;
      assert NoTargetAnywhere(inputs[1..]) by {
        forall n, i | 0 <= n < |inputs[1..]| && 0 <= i < |inputs[1..][n].detections|
          ensures !HasTarget(inputs[1..][n].detections[i])
        {
          assert inputs[1..][n] == inputs[n + 1];
        }
      }
      SilentWithoutTarget(AnalyzeImage(s, inputs[0]).state, inputs[1..]);
    }
  }
}
