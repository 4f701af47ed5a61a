/**
 * The tracker wrapper of tracking/ObjectTracker.kt: a nullable handle to a native CSRT
 * tracker. The native tracker is an oracle; the model keeps only which `createTracker`
 * call made the instance and the ROI it was last initialised with. The CSRT parameter
 * record and the bitmap-to-matrix conversion are not part of this model.
 */
module CsrtTracker {
  import opened Wrappers
  import opened Geometry

  /**
   * A native TrackerCSRT instance. `generation` numbers the instances in creation order;
   * `target` is the ROI passed to its last `init`, None before the first one.
   */
  datatype Csrt = Csrt(generation: nat, target: Option<Roi>) {

    /** `TrackerCSRT.init(mat, roi)` on this instance. */
    function Init(roi: Roi): Csrt {
      this.(target := Some(roi))
    }
  }

  /** What the native `update(mat, rect)` reports for one frame: its success flag and the rectangle it writes back. */
  datatype NativeUpdate = NativeUpdate(success: bool, rect: Roi)

  /**
   * The wrapper object: `tracker` is the nullable handle, `created` counts the
   * `createTracker` calls made so far (it numbers the next instance).
   */
  datatype ObjectTracker = ObjectTracker(tracker: Option<Csrt>, created: nat) {

    /** The handle always points at an instance made by an earlier `createTracker`. */
    predicate Valid() {
      tracker.Some? ==> tracker.value.generation < created
    }

    /** `isInit()`: a tracker has been created. */
    predicate IsInit() {
      tracker.Some?
    }
  }

  /** A freshly constructed wrapper: no native tracker yet. */
  const Uncreated: ObjectTracker := ObjectTracker(None, 0)

  /**
   * `createTracker`: the handle now holds a new, not yet initialised instance, distinct
   * from any instance it held before.
   */
  function CreateTracker(t: ObjectTracker): (t': ObjectTracker)
    ensures t'.IsInit() && t'.tracker.value.target.None?
    ensures t'.created == t.created + 1
    ensures t.Valid() ==> t'.Valid()
    ensures t.Valid() && t.IsInit() ==> t'.tracker.value.generation != t.tracker.value.generation
  {
    ObjectTracker(Some(Csrt(t.created, None)), t.created + 1)
  }

  /**
   * `initTracker`: binds the existing instance to `roi`; without an instance it does
   * nothing (`tracker?.init`). It never creates or replaces an instance.
   */
  function InitTracker(t: ObjectTracker, roi: Roi): (t': ObjectTracker)
    ensures !t.IsInit() ==> t' == t
    ensures t'.IsInit() == t.IsInit() && t'.created == t.created
    ensures t.IsInit() ==> t'.tracker.value.generation == t.tracker.value.generation
    ensures t.IsInit() ==> t'.tracker.value.target == Some(roi)
    ensures t.Valid() ==> t'.Valid()
  {
    match t.tracker
    case None => t
    case Some(c) => t.(tracker := Some(c.Init(roi)))
  }

  /**
   * `updateTracker`: the rectangle the native update wrote, exactly when an instance
   * exists and the native update reports success; null otherwise. The rectangle is
   * returned as written, with no emptiness check.
   */
  function UpdateTracker(t: ObjectTracker, native: NativeUpdate): (r: Option<Roi>)
    ensures r.Some? <==> t.IsInit() && native.success
    ensures r.Some? ==> r.value == native.rect
  {
    var success := if t.tracker.Some? then native.success else false;
    if success then Some(native.rect) else None
  }

  /** A successful native update with an empty rectangle is still reported as a rectangle. */
  lemma UpdateKeepsEmptyRect(t: ObjectTracker, native: NativeUpdate)
    requires t.IsInit() && native.success && native.rect.Empty()
    ensures UpdateTracker(t, native) == Some(native.rect)
  {
  }

  /** The wrapper's operations, as a client may call them in sequence. */
  datatype TrackerOp = Create | Init(roi: Roi) | Update(native: NativeUpdate)

  /** The wrapper after a sequence of operations (`Update` leaves the wrapper as it is). */
  function ApplyOps(t: ObjectTracker, ops: seq<TrackerOp>): ObjectTracker
    decreases |ops|
  {
    if |ops| == 0 then t
    else
      var t1 := match ops[0]
                case Create => CreateTracker(t)
                case Init(roi) => InitTracker(t, roi)
                case Update(_) => t;
      ApplyOps(t1, ops[1..])
  }

  /**
   * `isInit()` of a fresh wrapper becomes true exactly when some operation was a
   * `createTracker`, and it stays valid whatever is called.
   */
  lemma {:induction false} InitOnlyByCreate(t: ObjectTracker, ops: seq<TrackerOp>)
    requires t.Valid()
    ensures ApplyOps(t, ops).Valid()
    ensures ApplyOps(t, ops).IsInit() <==> t.IsInit() || Create in ops
    decreases |ops|
  {
    if |ops| > 0 {
      var t1 := match ops[0]
                case Create => CreateTracker(t)
                case Init(roi) => InitTracker(t, roi)
                case Update(_) => t;
      InitOnlyByCreate(t1, ops[1..]);
      assert ops == [ops[0]] + ops[1..];
    }
  }

  /** Hence a fresh wrapper reports `isInit()` false until `createTracker` is called. */
  lemma UninitialisedUntilCreate(ops: seq<TrackerOp>)
    requires Create !in ops
    ensures !ApplyOps(Uncreated, ops).IsInit()
  {
    InitOnlyByCreate(Uncreated, ops);
  }
}
