/**
 * The detector's selection step (`detectObject` in tracking/ObjectDetector.kt, repeated
 * verbatim in the older ObjectTracker.kt). The TensorFlow Lite inference is an oracle:
 * its output is the sequence of raw results handed to `DetectObject`. The step keeps the
 * results that carry a "car" category, takes the one with the greatest car score
 * (`maxByOrNull`, so the earliest on ties), and truncates its box edges to integers.
 */
module Detector {
  import opened Wrappers
  import opened Geometry

  /** The class the detector looks for. */
  const TargetClass: string := "car"

  /** Options passed to the inference library; they bound the oracle's output, not the selection. */
  const MaxResults: nat := 1
  const ScoreThreshold: real := 0.25

  /** Range of Kotlin's 32-bit `Int`. */
  const IntMin: int := -0x8000_0000
  const IntMax: int := 0x7fff_ffff

  /** One labelled score of a raw result. */
  datatype Category = Category(classLabel: string, score: real)

  /** android.graphics.RectF: the model's box, in frame pixels, as floating-point edges. */
  datatype RectF = RectF(left: real, top: real, right: real, bottom: real)

  /** One raw result of the inference library. */
  datatype Detection = Detection(boundingBox: RectF, categories: seq<Category>)

  /**
   * Kotlin's `Float.toInt()`: rounds toward zero and saturates at the ends of the `Int`
   * range. Within the range the result is the integer part of `x`.
   */
  function FloatToInt(x: real): (n: int)
    ensures TruncatedFrom(x, n)
  {
    var t := if x >= 0.0 then x.Floor else -((-x).Floor);
    if t < IntMin then IntMin else if t > IntMax then IntMax else t
  }

  /**
   * `n` is what `Float.toInt()` makes of `x`: the integer part of `x` when `x` lies in the
   * `Int` range, the nearer end of the range otherwise.
   */
  ghost predicate TruncatedFrom(x: real, n: int) {
    && IntMin <= n <= IntMax
    && (x > IntMax as real ==> n == IntMax)
    && (x < IntMin as real ==> n == IntMin)
    && (IntMin as real <= x <= IntMax as real ==>
          if 0.0 <= x then n as real <= x < n as real + 1.0 else n as real - 1.0 < x <= n as real)
  }

  /** Truncation leaves no choice: at most one integer is the truncation of a real. */
  lemma TruncationIsUnique(x: real, n: int, m: int)
    requires TruncatedFrom(x, n) && TruncatedFrom(x, m)
    ensures n == m
  {
  }

  /**
   * The integer rectangle returned for a winning box (`Rect(left.toInt(), top.toInt(),
   * right.toInt(), bottom.toInt())`): each edge truncated on its own.
   */
  function TruncateBox(b: RectF): (r: Rect)
    ensures TruncatedFrom(b.left, r.left) && TruncatedFrom(b.top, r.top)
    ensures TruncatedFrom(b.right, r.right) && TruncatedFrom(b.bottom, r.bottom)
  {
    Rect(FloatToInt(b.left), FloatToInt(b.top), FloatToInt(b.right), FloatToInt(b.bottom))
  }

  predicate IsTarget(c: Category) {
    c.classLabel == TargetClass
  }


  /** `categories.firstOrNull { it.label == targetClass }`, as an index. */
  function FirstTargetIndex(cs: seq<Category>): (k: Option<nat>)
    ensures k.None? <==> forall j :: 0 <= j < |cs| ==> !IsTarget(cs[j])
    ensures k.Some? ==> k.value < |cs| && IsTarget(cs[k.value])
    ensures k.Some? ==> forall j :: 0 <= j < k.value ==> !IsTarget(cs[j])
  {
    if |cs| == 0 then None
    else if IsTarget(cs[0]) then Some(0)
    else
      match FirstTargetIndex(cs[1..])
      case None => None
      case Some(j) => Some(j + 1)
  }

  /**
   * `categories.any { it.label == targetClass }`: some category is the target class
   * (`FirstTargetIndex` finds one exactly when there is one).
   */
  predicate HasTarget(d: Detection) {
    FirstTargetIndex(d.categories).Some?
  }

  /**
   * The key `maxByOrNull` compares: the score of the FIRST car category of a result,
   * or 0 when it has none (`?.score ?: 0f`).
   */
  function TargetScore(d: Detection): real {
    match FirstTargetIndex(d.categories)
    case Some(k) => d.categories[k].score
    case None => 0.0
  }

  /** `results.filter { it.categories.any { … } }`: the car-bearing results, in order. */
  function TargetResults(rs: seq<Detection>): (fs: seq<Detection>)
    ensures |fs| <= |rs|
    ensures forall i :: 0 <= i < |fs| ==> HasTarget(fs[i])
  {
    if |rs| == 0 then []
    else if HasTarget(rs[0]) then [rs[0]] + TargetResults(rs[1..])
    else TargetResults(rs[1..])
  }

  /** The filter keeps exactly the car-bearing results. */
  lemma {:induction false} TargetResultsMembers(rs: seq<Detection>)
    ensures forall d :: d in TargetResults(rs) <==> d in rs && HasTarget(d)
    decreases |rs|
  {
    if |rs| > 0 {
      TargetResultsMembers(rs[1..]);
      assert rs == [rs[0]] + rs[1..];
    }
  }

  /**
   * The loop of `maxByOrNull` after its first element: the running maximum `best` is
   * replaced only by an element whose key is STRICTLY greater. The result is `best` or an
   * element of `rest`, and no element has a greater key.
   */
  function MaxByFrom(best: Detection, rest: seq<Detection>): (m: Detection)
    ensures m == best || m in rest
    ensures TargetScore(best) <= TargetScore(m)
    ensures forall d :: d in rest ==> TargetScore(d) <= TargetScore(m)
    decreases |rest|
  {
    if |rest| == 0 then best
    else if TargetScore(best) < TargetScore(rest[0]) then MaxByFrom(rest[0], rest[1..])
    else MaxByFrom(best, rest[1..])
  }

  /** Kotlin's `maxByOrNull { TargetScore(it) }`: null on an empty list, else a maximal element of it. */
  function MaxByOrNull(xs: seq<Detection>): (m: Option<Detection>)
    ensures m.None? <==> |xs| == 0
    ensures m.Some? ==> m.value in xs
    ensures m.Some? ==> forall d :: d in xs ==> TargetScore(d) <= TargetScore(m.value)
  {
    if |xs| == 0 then None else Some(MaxByFrom(xs[0], xs[1..]))
  }

  /**
   * Reference definition of the selection: result `i` wins among the first `n` results
   * when it carries a car category, no car-bearing result among the first `n` scores
   * higher, and every car-bearing result before it scores strictly lower.
   */
  ghost predicate WinsAmong(rs: seq<Detection>, n: nat, i: nat)
    requires n <= |rs|
  {
    && i < n
    && HasTarget(rs[i])
    && (forall j :: 0 <= j < n && HasTarget(rs[j]) ==> TargetScore(rs[j]) <= TargetScore(rs[i]))
    && (forall j :: 0 <= j < i && HasTarget(rs[j]) ==> TargetScore(rs[j]) < TargetScore(rs[i]))
  }

  /** Result `i` is the one the detector must return. */
  ghost predicate IsSelected(rs: seq<Detection>, i: nat) {
    WinsAmong(rs, |rs|, i)
  }

  /** One step of the filter over a suffix of the results. */
  lemma TargetResultsStep(rs: seq<Detection>, i: nat)
    requires i < |rs|
    ensures TargetResults(rs[i..]) ==
            if HasTarget(rs[i]) then [rs[i]] + TargetResults(rs[i+1..]) else TargetResults(rs[i+1..])
  {
    assert rs[i..][1..] == rs[i+1..];
  }

  /** A result scoring no higher than the running winner does not displace it. */
  lemma WinnerKept(rs: seq<Detection>, i: nat, b: nat)
    requires i < |rs| && WinsAmong(rs, i, b)
    requires HasTarget(rs[i]) ==> TargetScore(rs[i]) <= TargetScore(rs[b])
    ensures WinsAmong(rs, i + 1, b)
  {
  }

  /** A car-bearing result scoring strictly higher than the running winner becomes the winner. */
  lemma WinnerReplaced(rs: seq<Detection>, i: nat, b: nat)
    requires i < |rs| && WinsAmong(rs, i, b)
    requires HasTarget(rs[i]) && TargetScore(rs[b]) < TargetScore(rs[i])
    ensures WinsAmong(rs, i + 1, i)
  {
  }

  /** One step of the `maxByOrNull` loop over a suffix of the filtered results. */
  lemma MaxByFromStep(rs: seq<Detection>, i: nat, best: Detection)
    requires i < |rs|
    ensures MaxByFrom(best, TargetResults(rs[i..])) ==
            if HasTarget(rs[i]) && TargetScore(best) < TargetScore(rs[i])
            then MaxByFrom(rs[i], TargetResults(rs[i+1..]))
            else MaxByFrom(best, TargetResults(rs[i+1..]))
  {
    TargetResultsStep(rs, i);
    var rest := TargetResults(rs[i+1..]);
    if HasTarget(rs[i]) {
      assert ([rs[i]] + rest)[1..] == rest;
    }
  }

  /**
   * The index `maxByOrNull` ends on when its running maximum is result `b` and results
   * `i` on are still to be filtered and compared: a later result takes over only when it
   * carries a car category and scores strictly higher.
   */
  ghost function WinnerFrom(rs: seq<Detection>, i: nat, b: nat): (w: nat)
    requires i <= |rs| && b < |rs|
    ensures w < |rs|
    decreases |rs| - i
  {
    if i == |rs| then b
    else if HasTarget(rs[i]) && TargetScore(rs[b]) < TargetScore(rs[i]) then WinnerFrom(rs, i + 1, i)
    else WinnerFrom(rs, i + 1, b)
  }

  /** Continuing from the winner of a prefix ends at the winner of the whole list. */
  lemma {:induction false} WinnerFromSelects(rs: seq<Detection>, i: nat, b: nat)
    requires i <= |rs| && WinsAmong(rs, i, b)
    ensures IsSelected(rs, WinnerFrom(rs, i, b))
    decreases |rs| - i
  {
    if i < |rs| {
      if HasTarget(rs[i]) && TargetScore(rs[b]) < TargetScore(rs[i]) {
        WinnerReplaced(rs, i, b);
        WinnerFromSelects(rs, i + 1, i);
      } else {
        WinnerKept(rs, i, b);
        WinnerFromSelects(rs, i + 1, b);
      }
    }
  }

  /** One comparison of `maxByOrNull`, seen both on the filtered list and on the indices. */
  lemma WinnerStep(rs: seq<Detection>, i: nat, b: nat) returns (b': nat)
    requires i < |rs| && b < |rs|
    ensures b' < |rs| && WinnerFrom(rs, i, b) == WinnerFrom(rs, i + 1, b')
    ensures MaxByFrom(rs[b], TargetResults(rs[i..])) == MaxByFrom(rs[b'], TargetResults(rs[i+1..]))
  {
    MaxByFromStep(rs, i, rs[b]);
    if HasTarget(rs[i]) && TargetScore(rs[b]) < TargetScore(rs[i]) {
      b' := i;
    } else {
      b' := b;
    }
  }

  /** Filtering the results from `i` on and folding `maxByOrNull` over them ends on `WinnerFrom`. */
  lemma {:induction false} MaxByFromIsWinner(rs: seq<Detection>, i: nat, b: nat)
    requires i <= |rs| && b < |rs|
    ensures MaxByFrom(rs[b], TargetResults(rs[i..])) == rs[WinnerFrom(rs, i, b)]
    decreases |rs| - i
  {
    if i == |rs| {
      assert rs[i..] == [];
    } else {
      var b' := WinnerStep(rs, i, b);
      MaxByFromIsWinner(rs, i + 1, b');
    }
  }

  /** Filtering and then `maxByOrNull` picks the selected result, skipping a car-free prefix. */
  lemma {:induction false} MaxByOrNullSelects(rs: seq<Detection>, i: nat) returns (w: nat)
    requires i <= |rs|
    requires forall j :: 0 <= j < i ==> !HasTarget(rs[j])
    requires MaxByOrNull(TargetResults(rs[i..])).Some?
    ensures IsSelected(rs, w) && rs[w] == MaxByOrNull(TargetResults(rs[i..])).value
    decreases |rs| - i
  {
    assert rs[i..] != [];
    TargetResultsStep(rs, i);
    var rest := TargetResults(rs[i+1..]);
    if HasTarget(rs[i]) {
      assert MaxByOrNull(TargetResults(rs[i..])).value == MaxByFrom(rs[i], rest);
      assert WinsAmong(rs, i + 1, i);
      MaxByFromIsWinner(rs, i + 1, i);
      WinnerFromSelects(rs, i + 1, i);
      w := WinnerFrom(rs, i + 1, i);
    } else {
      w := MaxByOrNullSelects(rs, i + 1);
    }
  }

  /** The element `maxByOrNull` picks from the filtered results is the selected result. */
  lemma FilteredMaximumIsSelected(rs: seq<Detection>) returns (w: nat)
    requires MaxByOrNull(TargetResults(rs)).Some?
    ensures IsSelected(rs, w) && rs[w] == MaxByOrNull(TargetResults(rs)).value
  {
    assert rs[0..] == rs;
    w := MaxByOrNullSelects(rs, 0);
  }

  /**
   * `detectObject` once inference has produced `rs`: null exactly when no result carries
   * a car category (`DetectObjectSelects` says which box it returns otherwise).
   */
  function DetectObject(rs: seq<Detection>): (r: Option<Rect>)
    ensures r.None? <==> forall i :: 0 <= i < |rs| ==> !HasTarget(rs[i])
  {
    TargetResultsMembers(rs);
    match MaxByOrNull(TargetResults(rs))
    case None => None
    case Some(d) => Some(TruncateBox(d.boundingBox))
  }

  /**
   * A non-null result of `detectObject` is the per-edge truncation of the box of the
   * selected result: a car-bearing result whose first car score is maximal, the
   * earliest among equals.
   */
  lemma DetectObjectSelects(rs: seq<Detection>) returns (i: nat)
    requires DetectObject(rs).Some?
    ensures IsSelected(rs, i) && DetectObject(rs).value == TruncateBox(rs[i].boundingBox)
  {
    i := FilteredMaximumIsSelected(rs);
  }

  /** At most one result is selected: a later equal score never displaces an earlier one. */
  lemma SelectionIsUnique(rs: seq<Detection>, i: nat, j: nat)
    requires IsSelected(rs, i) && IsSelected(rs, j)
    ensures i == j
  {
  }

  /** The detector returns the box of the selected result, whichever result that is. */
  lemma DetectObjectReturnsSelected(rs: seq<Detection>, i: nat)
    requires IsSelected(rs, i)
    ensures DetectObject(rs) == Some(TruncateBox(rs[i].boundingBox))
  {
    var r := DetectObject(rs);
    assert r.Some?;
    var w := DetectObjectSelects(rs);
    SelectionIsUnique(rs, i, w);
  }

  /** What the library's options promise of its output: few enough results, each category above the threshold. */
  ghost predicate HonoursOptions(rs: seq<Detection>) {
    && |rs| <= MaxResults
    && forall i, k :: 0 <= i < |rs| && 0 <= k < |rs[i].categories| ==> rs[i].categories[k].score >= ScoreThreshold
  }

  /**
   * With output limited to one result, a detection is that result's box and its car
   * score clears the threshold.
   */
  lemma SingleResultSelection(rs: seq<Detection>)
    requires HonoursOptions(rs) && DetectObject(rs).Some?
    ensures |rs| == 1 && HasTarget(rs[0]) && TargetScore(rs[0]) >= ScoreThreshold
    ensures DetectObject(rs) == Some(TruncateBox(rs[0].boundingBox))
  {
    assert HasTarget(rs[0]);
    assert IsSelected(rs, 0);
    DetectObjectReturnsSelected(rs, 0);
  }

  /** A single car result at 0.9 over [100, 100, 200, 200] is returned as that box. */
  lemma SingleCarExample()
    ensures DetectObject([Detection(RectF(100.0, 100.0, 200.0, 200.0), [Category("car", 0.9)])])
         == Some(Rect(100, 100, 200, 200))
  {
    var rs := [Detection(RectF(100.0, 100.0, 200.0, 200.0), [Category("car", 0.9)])];
    assert IsTarget(rs[0].categories[0]);
    assert IsSelected(rs, 0);
    DetectObjectReturnsSelected(rs, 0);
  }

  /**
   * Only the first car category of a result is compared: a result whose first car score
   * is 0.3 loses to one scoring 0.5 even though it also lists car at 0.9.
   */
  lemma FirstCategoryScoreExample()
    ensures DetectObject([
              Detection(RectF(0.0, 0.0, 10.0, 10.0), [Category("car", 0.3), Category("car", 0.9)]),
              Detection(RectF(5.0, 5.0, 20.0, 20.0), [Category("car", 0.5)])])
         == Some(Rect(5, 5, 20, 20))
  {
    var rs := [Detection(RectF(0.0, 0.0, 10.0, 10.0), [Category("car", 0.3), Category("car", 0.9)]),
               Detection(RectF(5.0, 5.0, 20.0, 20.0), [Category("car", 0.5)])];
    assert IsTarget(rs[0].categories[0]) && IsTarget(rs[1].categories[0]);
    assert TargetScore(rs[0]) == 0.3;
    assert IsSelected(rs, 1);
    DetectObjectReturnsSelected(rs, 1);
  }

  /** On equal car scores the earlier result wins, and results without a car category are ignored. */
  lemma TieGoesToEarliestExample()
    ensures DetectObject([
              Detection(RectF(1.0, 1.0, 2.0, 2.0), [Category("truck", 0.99)]),
              Detection(RectF(3.0, 3.0, 4.0, 4.0), [Category("car", 0.6)]),
              Detection(RectF(5.0, 5.0, 6.0, 6.0), [Category("car", 0.6)])])
         == Some(Rect(3, 3, 4, 4))
  {
    var rs := [Detection(RectF(1.0, 1.0, 2.0, 2.0), [Category("truck", 0.99)]),
               Detection(RectF(3.0, 3.0, 4.0, 4.0), [Category("car", 0.6)]),
               Detection(RectF(5.0, 5.0, 6.0, 6.0), [Category("car", 0.6)])];
    assert !IsTarget(rs[0].categories[0]);
    assert IsTarget(rs[1].categories[0]) && IsTarget(rs[2].categories[0]);
    assert IsSelected(rs, 1);
    DetectObjectReturnsSelected(rs, 1);
  }
}
