/**
 * The locator's `visibility` Map (script.js, second IIFE): section id to
 * intersection ratio, kept in insertion order. Its contents are modelled as a
 * key order plus a `map`; this module holds the definitions that say what the
 * seeding loop and an observer batch produce.
 */
module Visibility {
  import opened Options

  /** One IntersectionObserver entry: the observed section's id and its `intersectionRatio`. */
  datatype Report = Report(target: string, ratio: Option<real>)

  /** `entry.intersectionRatio || 0`: a missing ratio reads as 0. */
  function RatioOrZero(r: Option<real>): real
  {
    if r.Some? then r.value else 0.0
  }

  /** `Distinct(keys)`: no key occurs twice, as in a Map's key order. */
  predicate Distinct(keys: seq<string>)
  {
    forall i, j :: 0 <= i < j < |keys| ==> keys[i] != keys[j]
  }

  /**
   * The key order after `visibility.set(id, 0)` for each id in turn: a `set`
   * of a new key appends it, a `set` of a known key keeps its place.
   */
  function Seeded(ids: seq<string>): (keys: seq<string>)
    ensures forall k :: k in keys <==> k in ids
    ensures Distinct(keys)
    ensures |keys| <= |ids|
  {
    if ids == [] then []
    else
      var p := Seeded(ids[..|ids| - 1]);
      var id := ids[|ids| - 1];
      assert forall k :: k in ids <==> k in ids[..|ids| - 1] || k == id;
      if id in p then p else p + [id]
  }

  /** When the nav names each section once, the Map's key order is the nav order. */
  lemma {:induction false} SeededDistinct(ids: seq<string>)
    requires Distinct(ids)
    ensures Seeded(ids) == ids
  {
    if ids != [] {
      var n := |ids| - 1;
      SeededDistinct(ids[..n]);
      assert ids[n] !in ids[..n];
      assert ids[..n] + [ids[n]] == ids;
    }
  }

  /** The position of the first occurrence of `id` in `ids`. */
  function FirstIndex(ids: seq<string>, id: string): (i: nat)
    requires id in ids
    ensures i < |ids| && ids[i] == id
    ensures forall t :: 0 <= t < i ==> ids[t] != id
  {
    if ids[0] == id then 0 else 1 + FirstIndex(ids[1..], id)
  }

  /** A first occurrence in a prefix is the first occurrence in the whole sequence. */
  lemma {:induction false} FirstIndexPrefix(ids: seq<string>, n: nat, id: string)
    requires n <= |ids| && id in ids[..n]
    ensures FirstIndex(ids, id) == FirstIndex(ids[..n], id)
  {
    var i := FirstIndex(ids[..n], id);
    assert ids[i] == id;
    assert forall t :: 0 <= t < i ==> ids[t] == ids[..n][t];
  }

  /** The Map's keys appear in the order of each id's first occurrence in the nav. */
  lemma {:induction false} SeededFirstOccurrenceOrder(ids: seq<string>)
    ensures forall i, j :: 0 <= i < j < |Seeded(ids)| ==>
      FirstIndex(ids, Seeded(ids)[i]) < FirstIndex(ids, Seeded(ids)[j])
  {
    if ids != [] {
      var n := |ids| - 1;
      var pre := ids[..n];
      var p := Seeded(pre);
      SeededFirstOccurrenceOrder(pre);
      forall k | k in p
        ensures FirstIndex(ids, k) == FirstIndex(pre, k)
      {
        FirstIndexPrefix(ids, n, k);
      }
      if ids[n] !in p {
        assert ids[n] !in pre;
        assert FirstIndex(ids, ids[n]) == n;
        forall k | k in p
          ensures FirstIndex(ids, k) < n
        {
          FirstIndexPrefix(ids, n, k);
        }
      }
    }
  }

  /** The position of the last entry of a batch that reports on `id`, if any. */
  function LastReport(entries: seq<Report>, id: string): (i: Option<nat>)
    ensures i.Some? ==> i.value < |entries| && entries[i.value].target == id
    ensures i.Some? ==> forall j :: i.value < j < |entries| ==> entries[j].target != id
    ensures i.None? ==> forall j :: 0 <= j < |entries| ==> entries[j].target != id
  {
    if entries == [] then None
    else if entries[|entries| - 1].target == id then Some(|entries| - 1)
    else LastReport(entries[..|entries| - 1], id)
  }

  /** The ratios after `visibility.set(entry.target.id, entry.intersectionRatio || 0)` for each entry in turn. */
  function Applied(ratio: map<string, real>, entries: seq<Report>): (r: map<string, real>)
    ensures r.Keys == ratio.Keys + set i | 0 <= i < |entries| :: entries[i].target
  {
    if entries == [] then ratio
    else
      var e := entries[|entries| - 1];
      Applied(ratio, entries[..|entries| - 1])[e.target := RatioOrZero(e.ratio)]
  }

  /**
   * After a batch every id keeps its entry; a reported id holds the ratio of
   * its last report (0 when that report has none), and any other id keeps its
   * previous ratio.
   */
  lemma {:induction false} AppliedAt(ratio: map<string, real>, entries: seq<Report>, id: string)
    ensures id in Applied(ratio, entries) <==> id in ratio || LastReport(entries, id).Some?
    ensures id in Applied(ratio, entries) ==>
      Applied(ratio, entries)[id] ==
        match LastReport(entries, id)
        case Some(i) => RatioOrZero(entries[i].ratio)
        case None => ratio[id]
  {
    if entries != [] {
      AppliedAt(ratio, entries[..|entries| - 1], id);
    }
  }

  /** A batch whose entries all report on known ids adds no key. */
  lemma {:induction false} AppliedKeys(ratio: map<string, real>, entries: seq<Report>)
    requires forall i :: 0 <= i < |entries| ==> entries[i].target in ratio
    ensures Applied(ratio, entries).Keys == ratio.Keys
  {
    if entries != [] {
      AppliedKeys(ratio, entries[..|entries| - 1]);
    }
  }
}
