/**
 * The two rules by which the locator (script.js, second IIFE) chooses the
 * current section: the greatest intersection ratio over the visibility Map,
 * and, on scroll, the section whose top is nearest the header's bottom edge.
 * Each rule is a function over the scan's input, a characterisation proved
 * of it, and the method with the source's loop proved against both.
 * Results are positions in the scanned sequence.
 */
module Selection {
  import opened Options

  // ------------------------------------------------------------------ ratios

  /** Every key of the scan has a ratio. */
  predicate KeysRated(keys: seq<string>, ratio: map<string, real>)
  {
    forall i :: 0 <= i < |keys| ==> keys[i] in ratio
  }

  /**
   * The entry the ratio scan keeps: starting from a best ratio of 0, a later
   * entry replaces the best only with a strictly greater ratio.
   */
  function RatioLeader(keys: seq<string>, ratio: map<string, real>): (w: Option<nat>)
    requires KeysRated(keys, ratio)
    ensures w.Some? ==> w.value < |keys| && ratio[keys[w.value]] > 0.0
    decreases |keys|
  {
    if keys == [] then None
    else
      var n := |keys| - 1;
      var w := RatioLeader(keys[..n], ratio);
      var best := if w.Some? then ratio[keys[w.value]] else 0.0;
      if ratio[keys[n]] > best then Some(n) else w
  }

  /** Position `i` holds a positive ratio no other entry exceeds, and no earlier entry equals. */
  ghost predicate IsFirstMax(keys: seq<string>, ratio: map<string, real>, i: int)
    requires KeysRated(keys, ratio)
  {
    && 0 <= i < |keys|
    && ratio[keys[i]] > 0.0
    && (forall j :: 0 <= j < |keys| ==> ratio[keys[j]] <= ratio[keys[i]])
    && (forall j :: 0 <= j < i ==> ratio[keys[j]] < ratio[keys[i]])
  }

  /**
   * The scan chooses nothing exactly when no ratio is positive; otherwise it
   * chooses exactly the first entry with the greatest ratio.
   */
  lemma {:induction false} RatioLeaderIsFirstMax(keys: seq<string>, ratio: map<string, real>)
    requires KeysRated(keys, ratio)
    ensures RatioLeader(keys, ratio).None? <==> forall j :: 0 <= j < |keys| ==> ratio[keys[j]] <= 0.0
    ensures forall i :: RatioLeader(keys, ratio) == Some(i) <==> IsFirstMax(keys, ratio, i)
  {
    if keys != [] {
      var n := |keys| - 1;
      var p := keys[..n];
      assert KeysRated(p, ratio);
      assert forall j :: 0 <= j < n ==> p[j] == keys[j];
      RatioLeaderIsFirstMax(p, ratio);
      var w := RatioLeader(p, ratio);
      if w.Some? {
        assert IsFirstMax(p, ratio, w.value);
      }
    }
  }

  /** The ratio scan `for (const [id, ratio] of visibility.entries())`. */
  method PickByRatio(keys: seq<string>, ratio: map<string, real>) returns (best: Option<nat>)
    requires KeysRated(keys, ratio)
    ensures best == RatioLeader(keys, ratio)
    ensures best.None? <==> forall j :: 0 <= j < |keys| ==> ratio[keys[j]] <= 0.0
    ensures best.Some? ==> IsFirstMax(keys, ratio, best.value)
  {
    best := None;
    var bestRatio := 0.0;
    var i := 0;
    while i < |keys|
      invariant 0 <= i <= |keys|
      invariant KeysRated(keys[..i], ratio)
      invariant best == RatioLeader(keys[..i], ratio)
      invariant bestRatio == if best.Some? then ratio[keys[best.value]] else 0.0
    {
      assert keys[..i + 1][..i] == keys[..i];
      if ratio[keys[i]] > bestRatio {
        bestRatio := ratio[keys[i]];
        best := Some(i);
      }
      i := i + 1;
    }
    assert keys[..i] == keys;
    RatioLeaderIsFirstMax(keys, ratio);
  }

  // ---------------------------------------------------------------- position

  /** What `getBoundingClientRect` reports of a section, in viewport pixels. */
  datatype Rect = Rect(top: real, bottom: real)

  function Abs(x: real): real
  {
    if x < 0.0 then -x else x
  }

  /** The fallback skips a section whose bottom is at or above `headerH + 4` (scrolled past). */
  predicate InView(r: Rect, headerH: real)
  {
    !(r.bottom <= headerH + 4.0)
  }

  /** `Math.abs(rect.top - headerH)`. */
  function Distance(r: Rect, headerH: real): real
  {
    Abs(r.top - headerH)
  }

  /**
   * The section the fallback keeps: among the sections in view, a later one
   * replaces the best only when strictly nearer (the first candidate always
   * beats the initial `Infinity`).
   */
  function NearestLeader(rects: seq<Rect>, headerH: real): (b: Option<nat>)
    ensures b.Some? ==> b.value < |rects| && InView(rects[b.value], headerH)
  {
    if rects == [] then None
    else
      var n := |rects| - 1;
      var b := NearestLeader(rects[..n], headerH);
      if !InView(rects[n], headerH) then b
      else if b.None? || Distance(rects[n], headerH) < Distance(rects[b.value], headerH) then Some(n)
      else b
  }

  /** Position `i` is in view, no section in view is nearer, and no earlier one is as near. */
  ghost predicate IsFirstNearest(rects: seq<Rect>, headerH: real, i: int)
  {
    && 0 <= i < |rects|
    && InView(rects[i], headerH)
    && (forall j :: 0 <= j < |rects| && InView(rects[j], headerH) ==>
          Distance(rects[i], headerH) <= Distance(rects[j], headerH))
    && (forall j :: 0 <= j < i && InView(rects[j], headerH) ==>
          Distance(rects[i], headerH) < Distance(rects[j], headerH))
  }

  /**
   * The fallback chooses nothing exactly when every section is scrolled past;
   * otherwise it chooses exactly the first nearest section in view.
   */
  lemma {:induction false} NearestLeaderIsFirstNearest(rects: seq<Rect>, headerH: real)
    ensures NearestLeader(rects, headerH).None? <==> forall j :: 0 <= j < |rects| ==> !InView(rects[j], headerH)
    ensures forall i :: NearestLeader(rects, headerH) == Some(i) <==> IsFirstNearest(rects, headerH, i)
  {
    if rects != [] {
      var n := |rects| - 1;
      var p := rects[..n];
      assert forall j :: 0 <= j < n ==> p[j] == rects[j];
      NearestLeaderIsFirstNearest(p, headerH);
      var b := NearestLeader(p, headerH);
      if b.Some? {
        assert IsFirstNearest(p, headerH, b.value);
      }
    }
  }

  /** The scan `sections.forEach(...)` of `updateActiveByPosition`. */
  method PickNearest(rects: seq<Rect>, headerH: real) returns (best: Option<nat>)
    ensures best == NearestLeader(rects, headerH)
    ensures best.None? <==> forall j :: 0 <= j < |rects| ==> !InView(rects[j], headerH)
    ensures best.Some? ==> IsFirstNearest(rects, headerH, best.value)
  {
    best := None;
    var bestDistance: Option<real> := None;  // None stands for the initial Infinity
    var i := 0;
    while i < |rects|
      invariant 0 <= i <= |rects|
      invariant best == NearestLeader(rects[..i], headerH)
      invariant bestDistance == if best.Some? then Some(Distance(rects[best.value], headerH)) else None
    {
      assert rects[..i + 1][..i] == rects[..i];
      var r := rects[i];
      if InView(r, headerH) {
        var distance := Distance(r, headerH);
        if bestDistance.None? || distance < bestDistance.value {
          bestDistance := Some(distance);
          best := Some(i);
        }
      }
      i := i + 1;
    }
    assert rects[..i] == rects;
    NearestLeaderIsFirstNearest(rects, headerH);
  }
}
