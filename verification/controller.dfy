/**
 * The newer controller, `ObjectController.analyzeImage` in tracking/ObjectController.kt.
 * Per frame: with no tracker, detect and, on a hit, create and initialise the tracker and
 * report the detection; with a tracker, update it from the stored ROI (unless the ROI is
 * null or empty) and, when that leaves no ROI, re-detect on the same frame and
 * re-initialise the SAME tracker. Every frame produces one callback.
 */
module Controller {
  import opened Wrappers
  import opened Geometry
  import opened Detector
  import opened CsrtTracker
  import opened Events

  /** The controller's fields: the tracker wrapper, the nullable `roi`, and whether a callback is set. */
  datatype ControllerState = ControllerState(tracker: ObjectTracker, roi: Option<Roi>, hasCallback: bool)

  /** A freshly constructed controller. */
  const Initial: ControllerState := ControllerState(Uncreated, None, false)

  /** The outcome of one call: the new state, the callbacks emitted and the external calls made. */
  datatype Step = Step(state: ControllerState, events: seq<Event>, calls: seq<Action>)

  /**
   * What the controller keeps true between frames: the wrapper is valid, it is created
   * at most once, and without a tracker there is no ROI.
   */
  predicate Valid(s: ControllerState) {
    && s.tracker.Valid()
    && s.tracker.created == (if s.tracker.IsInit() then 1 else 0)
    && (!s.tracker.IsInit() ==> s.roi.None?)
  }

  /** A freshly constructed controller is valid, with or without a callback set. */
  lemma InitialIsValid()
    ensures Valid(Initial) && !Initial.tracker.IsInit()
    ensures Valid(SetTrackingCallback(Initial))
  {
  }

  /** The rectangle a stored ROI stands for, null when there is none. */
  function Shown(roi: Option<Roi>): Option<Rect> {
    match roi
    case Some(r) => Some(RoiToRect(r))
    case None => None
  }

  /** `setTrackingCallback` */
  function SetTrackingCallback(s: ControllerState): (s': ControllerState)
    ensures s'.hasCallback && s'.tracker == s.tracker && s'.roi == s.roi
  {
    s.(hasCallback := true)
  }

  /** Whether the stored ROI is fed to the tracker: `roi?.empty() == false`. */
  predicate WillUpdate(s: ControllerState) {
    s.roi.Some? && !s.roi.value.Empty()
  }

  /**
   * `analyzeImage` for one frame. Each call emits exactly one callback when a callback is
   * set, and a tracker, once created, is kept and never created again.
   */
  function AnalyzeImage(s: ControllerState, input: FrameInput): (r: Step)
    ensures |r.events| == (if s.hasCallback then 1 else 0)
    ensures forall e | e in r.events :: e.src == input.frame
    ensures r.state.hasCallback == s.hasCallback
    ensures s.tracker.IsInit() ==> r.state.tracker.IsInit() && r.state.tracker.created == s.tracker.created
  {
    if !s.tracker.IsInit() then
      match DetectObject(input.detections)
      case Some(d) =>
        var roi := GetRoi(d);
        Step(s.(tracker := InitTracker(CreateTracker(s.tracker), roi), roi := Some(roi)),
             Notify(s.hasCallback, Some(d), input.frame),
             [DetectCall, CreateCall, InitCall(roi)])
      case None =>
        Step(s, Notify(s.hasCallback, None, input.frame), [DetectCall])
    else
      var updated := WillUpdate(s);
      var roi := if updated then UpdateTracker(s.tracker, input.native) else s.roi;
      if roi.None? then
        match DetectObject(input.detections)
        case Some(d) =>
          var roi' := GetRoi(d);
          Step(s.(tracker := InitTracker(s.tracker, roi'), roi := Some(roi')),
               Notify(s.hasCallback, Some(d), input.frame),
               if updated then [UpdateCall, DetectCall, InitCall(roi')] else [DetectCall, InitCall(roi')])
        case None =>
          Step(s.(roi := None), Notify(s.hasCallback, None, input.frame),
               if updated then [UpdateCall, DetectCall] else [DetectCall])
      else
        Step(s.(roi := roi), Notify(s.hasCallback, Some(RoiToRect(roi.value)), input.frame),
             if updated then [UpdateCall] else [])
  }

  /**
   * Every branch of `analyzeImage`, as the per-branch lemmas below describe it: together
   * they fix the calls a frame makes.
   */
  lemma ByBranch(s: ControllerState, input: FrameInput)
    ensures var r := AnalyzeImage(s, input);
      || (!s.tracker.IsInit() && DetectObject(input.detections).Some? &&
          r.calls == [DetectCall, CreateCall, InitCall(GetRoi(DetectObject(input.detections).value))])
      || (!s.tracker.IsInit() && DetectObject(input.detections).None? && r.calls == [DetectCall])
      || (s.tracker.IsInit() && s.roi.Some? && s.roi.value.Empty() && r.calls == [])
      || (s.tracker.IsInit() && WillUpdate(s) && input.native.success && r.calls == [UpdateCall])
      || (s.tracker.IsInit() && s.roi.None? && DetectObject(input.detections).Some? &&
          r.calls == [DetectCall, InitCall(GetRoi(DetectObject(input.detections).value))])
      || (s.tracker.IsInit() && s.roi.None? && DetectObject(input.detections).None? && r.calls == [DetectCall])
      || (s.tracker.IsInit() && WillUpdate(s) && !input.native.success && DetectObject(input.detections).Some? &&
          r.calls == [UpdateCall, DetectCall, InitCall(GetRoi(DetectObject(input.detections).value))])
      || (s.tracker.IsInit() && WillUpdate(s) && !input.native.success && DetectObject(input.detections).None? &&
          r.calls == [UpdateCall, DetectCall])
  {
    if !s.tracker.IsInit() {
      match DetectObject(input.detections)
      case Some(d) => FirstDetection(s, input, d);
      case None => NothingDetected(s, input);
    } else if s.roi.Some? && s.roi.value.Empty() {
      EmptyRoiReemitted(s, input);
    } else if WillUpdate(s) && input.native.success {
      TrackingSucceeds(s, input);
    } else {
      match DetectObject(input.detections)
      case Some(d) => Reacquired(s, input, d);
      case None => TrackingLost(s, input);
    }
  }

  /** The tracker is created only on a detection while none exists. */
  lemma CreatesOnlyOnFirstDetection(s: ControllerState, input: FrameInput)
    ensures CreateCall in AnalyzeImage(s, input).calls <==>
              !s.tracker.IsInit() && DetectObject(input.detections).Some?
  {
    ByBranch(s, input);
  }

  /** `updateTracker` is called exactly when a tracker exists and the stored ROI is non-null and non-empty. */
  lemma UpdatesOnlyNonEmptyRoi(s: ControllerState, input: FrameInput)
    ensures UpdateCall in AnalyzeImage(s, input).calls <==> s.tracker.IsInit() && WillUpdate(s)
  {
    ByBranch(s, input);
  }

  /**
   * The detector runs exactly when there is no tracker, when the ROI is null, or when a
   * real update fails; a null ROI goes straight to detection.
   */
  lemma DetectsOnlyWithoutRoi(s: ControllerState, input: FrameInput)
    ensures DetectCall in AnalyzeImage(s, input).calls <==>
              !s.tracker.IsInit() || s.roi.None? || (WillUpdate(s) && !input.native.success)
  {
    ByBranch(s, input);
  }

  /**
   * A valid state stays valid, and from a valid state the rectangle emitted is always the
   * one the new stored ROI stands for: null exactly when the controller keeps no ROI.
   */
  lemma StepKeepsInvariant(s: ControllerState, input: FrameInput)
    requires Valid(s)
    ensures var r := AnalyzeImage(s, input);
      && Valid(r.state)
      && forall e | e in r.events :: e.rect == Shown(r.state.roi)
  {
    var r := AnalyzeImage(s, input);
    match DetectObject(input.detections)
    case Some(d) =>
      assert RoiToRect(GetRoi(d)) == d;
    case None =>
  }

  /**
   * First detection: the tracker is created and initialised with the ROI
   * (left, top, width, height) of the detected rectangle, and that rectangle itself is
   * emitted.
   */
  lemma FirstDetection(s: ControllerState, input: FrameInput, d: Rect)
    requires !s.tracker.IsInit() && DetectObject(input.detections) == Some(d)
    ensures var r := AnalyzeImage(s, input);
      && r.state.tracker.IsInit()
      && r.state.tracker.tracker.value.target == Some(Roi(d.left, d.top, d.Width(), d.Height()))
      && r.state.roi == Some(Roi(d.left, d.top, d.Width(), d.Height()))
      && r.events == Notify(s.hasCallback, Some(d), input.frame)
      && r.calls == [DetectCall, CreateCall, InitCall(Roi(d.left, d.top, d.Width(), d.Height()))]
  {
  }

  /** No detection without a tracker: null is emitted and nothing else changes. */
  lemma NothingDetected(s: ControllerState, input: FrameInput)
    requires !s.tracker.IsInit() && DetectObject(input.detections).None?
    ensures var r := AnalyzeImage(s, input);
      && r.state == s
      && r.events == Notify(s.hasCallback, None, input.frame)
      && r.calls == [DetectCall]
  {
  }

  /**
   * Successful update: the ROI becomes the tracker's rectangle (x, y, w, h) and the
   * emitted rectangle is (x, y, x + w, y + h); nothing is detected.
   */
  lemma TrackingSucceeds(s: ControllerState, input: FrameInput)
    requires s.tracker.IsInit() && WillUpdate(s) && input.native.success
    ensures var r := AnalyzeImage(s, input); var b := input.native.rect;
      && r.state == s.(roi := Some(b))
      && r.events == Notify(s.hasCallback, Some(Rect(b.x, b.y, b.x + b.width, b.y + b.height)), input.frame)
      && r.calls == [UpdateCall]
  {
  }

  /**
   * Failed update, or no ROI at all, and nothing re-detected: null is emitted and the ROI
   * is null, so the next frame goes straight to detection. The tracker is kept.
   */
  lemma TrackingLost(s: ControllerState, input: FrameInput)
    requires s.tracker.IsInit() && (s.roi.None? || (WillUpdate(s) && !input.native.success))
    requires DetectObject(input.detections).None?
    ensures var r := AnalyzeImage(s, input);
      && r.state == s.(roi := None)
      && r.events == Notify(s.hasCallback, None, input.frame)
      && r.calls == (if WillUpdate(s) then [UpdateCall, DetectCall] else [DetectCall])
      && !WillUpdate(r.state) && r.state.tracker.IsInit()
  {
  }

  /**
   * Re-acquisition after a failed update or with no ROI: the existing tracker is
   * re-initialised (no new instance is created), the ROI is the new detection's, and the
   * new detection, not the pre-failure rectangle, is emitted.
   */
  lemma Reacquired(s: ControllerState, input: FrameInput, d: Rect)
    requires s.tracker.IsInit() && (s.roi.None? || (WillUpdate(s) && !input.native.success))
    requires DetectObject(input.detections) == Some(d)
    ensures var r := AnalyzeImage(s, input);
      && r.state.roi == Some(GetRoi(d))
      && r.state.tracker.created == s.tracker.created
      && r.state.tracker.tracker.value.generation == s.tracker.tracker.value.generation
      && r.state.tracker.tracker.value.target == Some(GetRoi(d))
      && r.events == Notify(s.hasCallback, Some(d), input.frame)
      && r.calls == (if WillUpdate(s) then [UpdateCall, DetectCall, InitCall(GetRoi(d))]
                     else [DetectCall, InitCall(GetRoi(d))])
  {
  }

  /**
   * A non-null empty ROI is not fed to the tracker, counts as success, and is emitted
   * again unchanged; nothing else happens.
   */
  lemma EmptyRoiReemitted(s: ControllerState, input: FrameInput)
    requires s.tracker.IsInit() && s.roi.Some? && s.roi.value.Empty()
    ensures var r := AnalyzeImage(s, input);
      && r.state == s
      && r.events == Notify(s.hasCallback, Some(RoiToRect(s.roi.value)), input.frame)
      && r.calls == []
  {
  }

  /** The controller over a sequence of frames: states threaded, events and calls concatenated. */
  function Run(s: ControllerState, inputs: seq<FrameInput>): (r: Step)
    ensures |r.events| == (if s.hasCallback then |inputs| else 0)
    ensures s.tracker.IsInit() ==> r.state.tracker.IsInit() && r.state.tracker.created == s.tracker.created
    ensures r.state.hasCallback == s.hasCallback
    decreases |inputs|
  {
    if |inputs| == 0 then Step(s, [], [])
    else
      var first := AnalyzeImage(s, inputs[0]);
      var rest := Run(first.state, inputs[1..]);
      Step(rest.state, first.events + rest.events, first.calls + rest.calls)
  }

  /** Two-frame unfolding of `Run`, with the frame list rebuilt from its head. */
  lemma RunTwo(s: ControllerState, i1: FrameInput, i2: FrameInput)
    ensures var first := AnalyzeImage(s, i1); var second := AnalyzeImage(first.state, i2);
      && Run(s, [i1, i2]).state == second.state
      && Run(s, [i1, i2]).events == first.events + second.events
  {
    var first := AnalyzeImage(s, i1);
    var second := AnalyzeImage(first.state, i2);
    assert [i2][1..] == [];
    assert Run(first.state, [i2]) == Step(second.state, second.events + [], second.calls + []);
    assert [i1, i2][1..] == [i2];
  }

  /**
   * Over frames that never contain the target class, a controller without a tracker
   * only ever detects and emits null, and never creates a tracker.
   */
  lemma {:induction false} NoTargetNeverTracks(s: ControllerState, inputs: seq<FrameInput>)
    requires !s.tracker.IsInit() && NoTargetAnywhere(inputs)
    ensures var r := Run(s, inputs);
      && r.state == s
      && (forall e | e in r.events :: e.rect.None?)
      && (forall a | a in r.calls :: a == DetectCall)
    decreases |inputs|
  {
    if |inputs| > 0 {
      assert DetectObject(inputs[0].detections).None?;
      assert NoTargetAnywhere(inputs[1..]) by {
        forall n, i | 0 <= n < |inputs[1..]| && 0 <= i < |inputs[1..][n].detections|
          ensures !HasTarget(inputs[1..][n].detections[i])
        {
          assert inputs[1..][n] == inputs[n + 1];
        }
      }
      NoTargetNeverTracks(AnalyzeImage(s, inputs[0]).state, inputs[1..]);
    }
  }

  /**
   * Once the stored ROI is non-null but empty, it is never updated or replaced: every
   * later frame re-emits its rectangle, whatever the detector or the tracker would say.
   */
  lemma {:induction false} EmptyRoiIsPermanent(s: ControllerState, inputs: seq<FrameInput>)
    requires s.tracker.IsInit() && s.roi.Some? && s.roi.value.Empty()
    ensures var r := Run(s, inputs);
      && r.state == s
      && r.calls == []
      && (forall e | e in r.events :: e.rect == Some(RoiToRect(s.roi.value)))
    decreases |inputs|
  {
    if |inputs| > 0 {
      EmptyRoiIsPermanent(s, inputs[1..]);
    }
  }

  /**
   * Three frames from a fresh controller: nothing detected, then a car over
   * [100, 100, 200, 200] detected, then the tracker follows it to `b`. The callbacks are
   * null, the car's box, and `b`'s rectangle, and the controller ends up tracking `b`.
   */
  lemma EndToEndExample(f1: Frame, f2: Frame, f3: Frame, b: Roi, idle: NativeUpdate)
    ensures var hit := [Detection(RectF(100.0, 100.0, 200.0, 200.0), [Category("car", 0.9)])];
      var r := Run(SetTrackingCallback(Initial),
                   [FrameInput(f1, [], idle), FrameInput(f2, hit, idle),
                    FrameInput(f3, [], NativeUpdate(true, b))]);
      && r.events == [Event(None, f1), Event(Some(Rect(100, 100, 200, 200)), f2), Event(Some(RoiToRect(b)), f3)]
      && r.state.tracker.IsInit() && r.state.roi == Some(b)
  {
    var hit := [Detection(RectF(100.0, 100.0, 200.0, 200.0), [Category("car", 0.9)])];
    var a := Rect(100, 100, 200, 200);
    SingleCarExample();
    assert DetectObject([]).None?;
    var s0 := SetTrackingCallback(Initial);
    var i1, i2, i3 := FrameInput(f1, [], idle), FrameInput(f2, hit, idle), FrameInput(f3, [], NativeUpdate(true, b));
    NothingDetected(s0, i1);
    var s1 := AnalyzeImage(s0, i1);
    FirstDetection(s1.state, i2, a);
    var s2 := AnalyzeImage(s1.state, i2);
    TrackingSucceeds(s2.state, i3);
    RunTwo(s1.state, i2, i3);
    RunTwo(s0, i1, i2);
    assert [i1, i2, i3][1..] == [i2, i3];
  }
}
