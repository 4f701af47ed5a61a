# car-frame-control: detect/track orchestration in Dafny

This project models the per-frame detect/track logic of the Android app
car-frame-control. The app keeps a box around one car in a camera stream. Each
frame it either asks a TensorFlow Lite detector for the best "car" box or asks an
OpenCV CSRT tracker to follow the box it already has. On failure it re-detects on
the same frame, and it reports the outcome through a `TrackingCallback`.

The detector's inference and the tracker's native update are oracles. For each frame
the model receives (`Events.FrameInput`):
- the raw detector results: boxes with labelled, scored categories;
- the native update's success flag and the rectangle it writes back.

Controllers are pure step functions. Each takes a state and one frame's input. It
returns the new state, the callbacks emitted, and the calls made into the detector
and the tracker, in order.

Modules:
- `Wrappers`: `Option`, for Kotlin's nullable values.
- `Geometry`: Android `Rect` (edges), OpenCV `Rect` (`Roi`: origin and size), and the
  conversions between them (`getRoi`, `roiToRect`).
- `Detector`: `detectObject`. It keeps the results that carry a "car" category, takes
  `maxByOrNull` of the first car score (so the earliest result wins ties), and truncates
  the box edges with `Float.toInt`. `IsSelected` is an independent reference
  definition of the result to return. `DetectObject` is proved to return exactly that
  result's box.
- `CsrtTracker`: the wrapper in tracking/ObjectTracker.kt (`createTracker`,
  `initTracker`, `updateTracker`, `isInit`) over a nullable native handle.
- `Controller`: the newer `ObjectController.analyzeImage`.
- `LegacyTracker`: the older `ObjectTracker.analyzeImage` in
  app/src/main/java/com/example/frameobjectcontrol/ObjectTracker.kt, whose package line also
  says `…tracking`. This is the class `MainActivity` instantiates.
- `Variants`: lemmas showing where the two controllers differ on the same input.

The two controllers are kept apart on purpose. The older one:
- emits nothing while it has no tracker;
- treats an empty ROI as a tracking failure;
- stores the native update's rectangle even when the update fails;
- keeps its ROI when re-detection fails.

The newer one:
- reports the first detection;
- treats a non-null empty ROI as a success and re-emits it, so that ROI never changes again
  (`Controller.EmptyRoiIsPermanent`);
- sets the ROI to null after a failed re-detection.

Neither ever discards its tracker, so having a tracker is not the same as tracking:
re-acquisition re-initialises the existing instance and does not create a new one.
Neither treats a degenerate rectangle from a successful update as a failure on that
frame. The newer one stores whatever `updateTracker` returns, and the older one tests
only the `success` flag of `tracker?.update` (ObjectTracker.kt:125-128). Neither has a
tracker-initialisation error path.

## Model

| member | source | states |
|---|---|---|
| Geometry.RoiToRect | app/src/main/java/com/example/frameobjectcontrol/tracking/ObjectController.kt:83-90 | the edge form keeps the ROI's origin as top-left corner and its size as width and height |
| Geometry.GetRoi | app/src/main/java/com/example/frameobjectcontrol/ObjectTracker.kt:196-203 | converting a rectangle to an ROI and back gives the rectangle; the ROI is empty exactly when the rectangle has no positive area |
| Geometry.RoiRoundTrip | app/src/main/java/com/example/frameobjectcontrol/ObjectTracker.kt:196-212 | converting an ROI to a rectangle and back gives the ROI |
| Geometry.RoiToRectInjective | app/src/main/java/com/example/frameobjectcontrol/ObjectTracker.kt:205-212 | distinct ROIs are emitted as distinct rectangles |
| Detector.FloatToInt | app/src/main/java/com/example/frameobjectcontrol/tracking/ObjectDetector.kt:47-50 | `Float.toInt` gives the integer part of its argument, rounding toward zero, and saturates at the 32-bit range |
| Detector.FirstTargetIndex | app/src/main/java/com/example/frameobjectcontrol/tracking/ObjectDetector.kt:42 | `firstOrNull` finds the first car category, null exactly when there is none |
| Detector.TargetResultsMembers | app/src/main/java/com/example/frameobjectcontrol/tracking/ObjectDetector.kt:39-40 | the filter keeps exactly the results with a car category |
| Detector.TargetResults | app/src/main/java/com/example/frameobjectcontrol/tracking/ObjectDetector.kt:39-40 | the filter never lengthens the list and every result it keeps carries a car category (`TargetResultsMembers` adds that it keeps all of them) |
| Detector.MaxByFrom | app/src/main/java/com/example/frameobjectcontrol/tracking/ObjectDetector.kt:41-43 | the running maximum ends at an element of the list whose car score no element exceeds |
| Detector.MaxByOrNull | app/src/main/java/com/example/frameobjectcontrol/tracking/ObjectDetector.kt:41-43 | null exactly on an empty list, else a member with maximal car score |
| Detector.WinnerFromSelects | app/src/main/java/com/example/frameobjectcontrol/tracking/ObjectDetector.kt:41-43 | continuing the running maximum from a prefix's winner ends at the winner of the whole list, a later result taking over only with a strictly higher car score |
| Detector.MaxByFromIsWinner | app/src/main/java/com/example/frameobjectcontrol/tracking/ObjectDetector.kt:39-43 | filtering a suffix and folding `maxByOrNull` over it ends on the same result as the index-level walk over the unfiltered suffix |
| Detector.MaxByOrNullSelects | app/src/main/java/com/example/frameobjectcontrol/ObjectTracker.kt:157-159 | filter-then-`maxByOrNull` lands on the selected result even after a car-free prefix |
| Detector.FilteredMaximumIsSelected | app/src/main/java/com/example/frameobjectcontrol/ObjectTracker.kt:157-159 | the result the filter and `maxByOrNull` pick is the reference selection |
| Detector.DetectObject | app/src/main/java/com/example/frameobjectcontrol/tracking/ObjectDetector.kt:39-52 | null exactly when no result has a car category |
| Detector.DetectObjectSelects | app/src/main/java/com/example/frameobjectcontrol/tracking/ObjectDetector.kt:39-52 | a non-null detection is the per-edge truncation of the box of the selected result: the earliest car result with the highest first-car-category score |
| Detector.TruncateBox | app/src/main/java/com/example/frameobjectcontrol/tracking/ObjectDetector.kt:45-52 | each edge of the returned rectangle is the `Float.toInt` of the matching float edge: its integer part within the `Int` range, the nearer end outside it |
| Detector.TruncationIsUnique | app/src/main/java/com/example/frameobjectcontrol/tracking/ObjectDetector.kt:47-50 | that description of `Float.toInt` admits exactly one integer per float, so it pins each edge down |
| Detector.SelectionIsUnique | app/src/main/java/com/example/frameobjectcontrol/tracking/ObjectDetector.kt:41-43 | the selection rule picks at most one result |
| Detector.DetectObjectReturnsSelected | app/src/main/java/com/example/frameobjectcontrol/ObjectTracker.kt:155-169 | the detector returns the truncated box of the selected result, whichever it is |
| Detector.SingleResultSelection | app/src/main/java/com/example/frameobjectcontrol/tracking/ObjectDetector.kt:18-21 | with output limited to one result above threshold 0.25, a detection is that result's box and its car score clears the threshold |
| Detector.SingleCarExample | app/src/main/java/com/example/frameobjectcontrol/tracking/ObjectDetector.kt:39-52 | one car result at 0.9 over [100,100,200,200] yields that box |
| Detector.FirstCategoryScoreExample | app/src/main/java/com/example/frameobjectcontrol/tracking/ObjectDetector.kt:42 | only the first car category's score is compared |
| Detector.TieGoesToEarliestExample | app/src/main/java/com/example/frameobjectcontrol/ObjectTracker.kt:157-159 | non-car results are ignored and equal scores go to the earlier result |
| CsrtTracker.CreateTracker | app/src/main/java/com/example/frameobjectcontrol/tracking/ObjectTracker.kt:14-47 | afterwards `isInit` holds and the handle is a fresh instance, distinct from the one it replaced |
| CsrtTracker.InitTracker | app/src/main/java/com/example/frameobjectcontrol/tracking/ObjectTracker.kt:50-53 | without a tracker nothing changes; otherwise the same instance is bound to the ROI |
| CsrtTracker.UpdateTracker | app/src/main/java/com/example/frameobjectcontrol/tracking/ObjectTracker.kt:56-60 | the written rectangle exactly when a tracker exists and the native update succeeds, else null |
| CsrtTracker.UpdateKeepsEmptyRect | app/src/main/java/com/example/frameobjectcontrol/tracking/ObjectTracker.kt:58-60 | an empty rectangle from a successful update is returned unchecked |
| CsrtTracker.InitOnlyByCreate | app/src/main/java/com/example/frameobjectcontrol/tracking/ObjectTracker.kt:12-72 | over any sequence of wrapper calls, `isInit` becomes true exactly through `createTracker`, and the handle stays valid |
| CsrtTracker.UninitialisedUntilCreate | app/src/main/java/com/example/frameobjectcontrol/tracking/ObjectTracker.kt:70-72 | a fresh wrapper reports `isInit` false until `createTracker` is called |
| Events.Notify | app/src/main/java/com/example/frameobjectcontrol/tracking/ObjectController.kt:46-77 | `trackingCallback?.onObjectDetected(rect, bitmap)`: exactly one event carrying the rectangle and frame when a callback is set, none otherwise |
| Controller.InitialIsValid | app/src/main/java/com/example/frameobjectcontrol/tracking/ObjectController.kt:16-19 | a fresh controller has no tracker and no roi and satisfies the invariant, before and after a callback is set |
| Controller.SetTrackingCallback | app/src/main/java/com/example/frameobjectcontrol/tracking/ObjectController.kt:28-30 | sets the callback and touches nothing else |
| Controller.AnalyzeImage | app/src/main/java/com/example/frameobjectcontrol/tracking/ObjectController.kt:32-81 | every call emits exactly one callback for this frame; a created tracker is never lost or re-created |
| Controller.ByBranch | app/src/main/java/com/example/frameobjectcontrol/tracking/ObjectController.kt:32-81 | the calls of each of the eight branches: detect, create and init on a first detection; nothing for an empty roi; update alone on success; update (when the roi was non-empty), detect and, on a detection, init after a failure |
| Controller.CreatesOnlyOnFirstDetection | app/src/main/java/com/example/frameobjectcontrol/tracking/ObjectController.kt:33-67 | `createTracker` is called exactly when there is no tracker and the detector finds a car |
| Controller.UpdatesOnlyNonEmptyRoi | app/src/main/java/com/example/frameobjectcontrol/tracking/ObjectController.kt:51-54 | `updateTracker` is called exactly when a tracker exists and the roi is non-null and non-empty |
| Controller.DetectsOnlyWithoutRoi | app/src/main/java/com/example/frameobjectcontrol/tracking/ObjectController.kt:33-58 | the detector runs exactly without a tracker, with a null roi, or after a failed real update |
| Controller.StepKeepsInvariant | app/src/main/java/com/example/frameobjectcontrol/tracking/ObjectController.kt:36-79 | the one-tracker invariant is kept, and the emitted rectangle is always the one the new stored ROI stands for |
| Controller.FirstDetection | app/src/main/java/com/example/frameobjectcontrol/tracking/ObjectController.kt:33-46 | the tracker is created and initialised, roi becomes (left, top, width, height), and the detection itself is emitted |
| Controller.NothingDetected | app/src/main/java/com/example/frameobjectcontrol/tracking/ObjectController.kt:33-49 | without a tracker and a detection, null is emitted and the state is unchanged |
| Controller.TrackingSucceeds | app/src/main/java/com/example/frameobjectcontrol/tracking/ObjectController.kt:51-75 | a successful update stores the tracker's (x, y, w, h) and emits (x, y, x+w, y+h) |
| Controller.TrackingLost | app/src/main/java/com/example/frameobjectcontrol/tracking/ObjectController.kt:55-71 | failure without re-detection emits null and leaves roi null, so the next frame detects without tracking |
| Controller.Reacquired | app/src/main/java/com/example/frameobjectcontrol/tracking/ObjectController.kt:56-68 | re-detection re-initialises the same tracker without creating one and emits the new detection |
| Controller.EmptyRoiReemitted | app/src/main/java/com/example/frameobjectcontrol/tracking/ObjectController.kt:51-75 | a non-null empty roi skips the update, counts as success, and is re-emitted unchanged |
| Controller.Run | app/src/main/java/com/example/frameobjectcontrol/tracking/ObjectController.kt:32-81 | over n frames with a callback set, exactly n callbacks are emitted, and a tracker is never lost |
| Controller.NoTargetNeverTracks | app/src/main/java/com/example/frameobjectcontrol/tracking/ObjectController.kt:33-49 | frames without a car leave an untracked controller unchanged, emitting only null |
| Controller.EmptyRoiIsPermanent | app/src/main/java/com/example/frameobjectcontrol/tracking/ObjectController.kt:51-75 | once the roi is empty, no later frame updates, detects or changes it |
| Controller.EndToEndExample | app/src/main/java/com/example/frameobjectcontrol/tracking/ObjectController.kt:32-81 | from a fresh controller with a callback, a frame with no results, a frame with one car over [100, 100, 200, 200], and a successfully tracked frame emit null, that box, and the tracked rectangle |
| LegacyTracker.InitialIsValid | app/src/main/java/com/example/frameobjectcontrol/ObjectTracker.kt:30-34 | a fresh object has no tracker and satisfies the field invariant |
| LegacyTracker.SetTrackingCallback | app/src/main/java/com/example/frameobjectcontrol/ObjectTracker.kt:55-57 | sets the callback and touches nothing else |
| LegacyTracker.AnalyzeImage | app/src/main/java/com/example/frameobjectcontrol/ObjectTracker.kt:60-145 | no callback while there is no tracker; once there is one, exactly one per call; the tracker is never replaced; the fields stay consistent |
| LegacyTracker.FirstDetectionIsSilent | app/src/main/java/com/example/frameobjectcontrol/ObjectTracker.kt:63-115 | the first detection creates and initialises the tracker with (left, top, width, height), records the detection and emits nothing |
| LegacyTracker.NothingDetected | app/src/main/java/com/example/frameobjectcontrol/ObjectTracker.kt:63-66 | no tracker and no detection: nothing changes and nothing is emitted |
| LegacyTracker.EmptyRoiFails | app/src/main/java/com/example/frameobjectcontrol/ObjectTracker.kt:121-126 | an empty roi is a failure without calling update, and the frame is re-detected |
| LegacyTracker.TrackingSucceeds | app/src/main/java/com/example/frameobjectcontrol/ObjectTracker.kt:121-130 | a successful update stores and emits the tracker's rectangle |
| LegacyTracker.Reacquired | app/src/main/java/com/example/frameobjectcontrol/ObjectTracker.kt:133-138 | re-detection re-initialises the same tracker and emits the detection itself, since `roiToRect(getRoi(r)) == r` |
| LegacyTracker.FailureKeepsTracker | app/src/main/java/com/example/frameobjectcontrol/ObjectTracker.kt:139-141 | failure and no re-detection emits null and keeps the tracker, the recorded detection and the post-update roi |
| LegacyTracker.EmittedRectMatchesRoi | app/src/main/java/com/example/frameobjectcontrol/ObjectTracker.kt:128-141 | any rectangle emitted is the edge form of the roi now stored |
| LegacyTracker.Run | app/src/main/java/com/example/frameobjectcontrol/ObjectTracker.kt:60-145 | once a tracker exists, n frames emit n callbacks and the tracker is never replaced |
| LegacyTracker.SilentWithoutTarget | app/src/main/java/com/example/frameobjectcontrol/ObjectTracker.kt:63-115 | frames without a car leave an untracked object unchanged and emit no callback at all |
| Variants.FirstDetectionDiffers | app/src/main/java/com/example/frameobjectcontrol/ObjectTracker.kt:63-115 | on the first car both store the same roi, but only the newer controller reports it |
| Variants.EmptyRoiDiffers | app/src/main/java/com/example/frameobjectcontrol/ObjectTracker.kt:121-126 | with an empty roi the newer controller calls nothing while the older one detects |
| Variants.LostTargetDiffers | app/src/main/java/com/example/frameobjectcontrol/ObjectTracker.kt:139-141 | after a failed update and failed re-detection the newer controller drops its roi and the older keeps the written one |

## Left out

- Camera binding, permissions, the start/stop button and UI-thread dispatch (MainActivity.kt). These are platform I/O.
- `mapBoundingBoxToScreen` and the letterbox mapping (MainActivity.kt, utils/ImagePostprocessor.kt). They are `Float` scaling with truncation, which real arithmetic would not reproduce.
- Bitmap resizing and pixel normalisation (utils/ImagePreprocessor.kt), and the canvas drawing in OverlayView.kt.
- The bitmap/`Mat`/`ImageProxy` conversions. They are pixel plumbing. A frame is modelled only by its identity.
- TensorFlow Lite inference and model loading. Their output is an oracle input. `MaxResults` and `ScoreThreshold` only bound that oracle (`Detector.HonoursOptions`).
- The CSRT parameter record (ObjectTracker.kt:69-99 and tracking/ObjectTracker.kt:15-46). It is opaque library tuning.
- CsrtTracker.UpdateTracker: the native tracker's internal appearance and motion state is not modelled. An update leaves the modelled instance unchanged.
- Exceptions raised inside the native tracker or the inference library (for example an assertion on an empty ROI in `init`). Both calls are assumed to return normally, because the code catches nothing.
- Detector.FloatToInt: NaN and infinite floats are not modelled. For the same reason, NaN scores in the `maxByOrNull` comparison are not modelled either. Finite floats are treated as exact reals.
- Geometry.RoiToRect: `x + width` and `y + height` use unbounded integers. Kotlin's 32-bit `Int` addition would wrap on overflow.
- Geometry.GetRoi: `Rect.width()` and `Rect.height()` (`right - left`, `bottom - top`) use unbounded integers. Kotlin's 32-bit subtraction would wrap, so for example `Rect(Int.MIN_VALUE, 0, 1, 1)` has a negative width in Kotlin, giving an empty ROI, but a positive one in the model.
- The `?: run { … onObjectDetected(null) }` branch at tracking/ObjectController.kt:76-78 runs only when no callback is set, because then `roi?.let { trackingCallback?.… }` evaluates to null. Its own `trackingCallback?.` call then emits nothing, so the model has no separate branch.
- LegacyTracker.AnalyzeImage: requires the class invariant `Valid`. The tracker, roi and recorded detection are only ever set together. The state "tracker but no roi", in which `roi!!` would throw, cannot arise.
