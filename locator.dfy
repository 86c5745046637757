/**
 * The active-section locator (script.js, second IIFE) as one object: the nav
 * links and their `active` flags, the resolved sections, the visibility Map,
 * the `ticking` flag and the animation frames it has requested. Each event
 * handler is one method, run atomically, as the browser serialises them.
 */
module NavLocator {
  import opened Options
  import opened NavLinks
  import opened Visibility
  import opened Selection
  import HeaderBar

  /** The `active` flags after highlighting section `id`: all cleared, then the first link to `#id` set. */
  function Highlighted(hrefs: seq<string>, id: string): (flags: seq<bool>)
    ensures |flags| == |hrefs|
    ensures forall j :: 0 <= j < |hrefs| ==>
      (flags[j] <==> hrefs[j] == "#" + id && forall t :: 0 <= t < j ==> hrefs[t] != "#" + id)
  {
    Marked(|hrefs|, FirstLink(hrefs, "#" + id))
  }

  /** Highlighting leaves exactly one link active when a link to the section exists, and none otherwise. */
  lemma HighlightedCount(hrefs: seq<string>, id: string)
    ensures CountTrue(Highlighted(hrefs, id)) == if FirstLink(hrefs, "#" + id).Some? then 1 else 0
  {
    MarkedCount(|hrefs|, FirstLink(hrefs, "#" + id));
  }

  /** For nav links that are all in-page anchors, highlighting a resolved section leaves exactly one link active. */
  lemma HighlightedSectionIsUnique(hrefs: seq<string>, present: set<string>, id: string)
    requires forall k :: 0 <= k < |hrefs| ==> |hrefs[k]| > 0 && hrefs[k][0] == '#'
    requires id in Resolve(hrefs, present)
    ensures CountTrue(Highlighted(hrefs, id)) == 1
  {
    ResolvedSectionHasLink(hrefs, present, id);
    HighlightedCount(hrefs, id);
  }

  class Locator {
    /** `href` of each `.main-nav a.nav-link`, in document order. */
    const hrefs: seq<string>
    /** The ids of the document's elements, as `getElementById` sees them at setup. */
    const present: set<string>
    /** `sections`: the resolved targets, in nav order. */
    const sections: seq<string>
    /** Whether each nav link carries the `active` class. */
    const active: array<bool>
    /** The visibility Map: its keys in insertion order, and its ratios. */
    var order: seq<string>
    var ratio: map<string, real>
    /** `ticking`, and how many `updateActiveByPosition` frames are requested and not yet run. */
    var ticking: bool
    var pendingFrames: nat

    ghost predicate Valid()
      reads this
    {
      && active.Length == |hrefs|
      && (forall k :: k in sections <==> k in order)
      && (forall k :: k in ratio <==> k in order)
      && "" !in order
    }

    /** The one-slot guard: at most one frame pending, and `ticking` exactly while one is. */
    ghost predicate FrameGuard()
      reads this
    {
      pendingFrames <= 1 && (ticking <==> pendingFrames == 1)
    }

    /** At most one nav link is active. */
    ghost predicate AtMostOneActive()
      reads this, active
    {
      CountTrue(active[..]) <= 1
    }

    /**
     * Setup: resolve the sections, seed every section's ratio with 0 in nav
     * order, and run `updateActiveByPosition` once. `marked` is the markup's
     * initial `active` classes; `rects` and `header` are the layout at setup.
     */
    constructor (hrefs: seq<string>, present: set<string>, marked: seq<bool>, rects: seq<Rect>, header: Option<nat>)
      requires |marked| == |hrefs|
      requires |rects| == |Resolve(hrefs, present)|
      ensures Valid() && FrameGuard() && !ticking
      ensures this.hrefs == hrefs && this.present == present && fresh(active)
      ensures sections == Resolve(hrefs, present) && order == Seeded(sections)
      ensures forall k :: k in ratio ==> ratio[k] == 0.0
      ensures var b := NearestLeader(rects, HeaderBar.LocatorHeight(header) as real);
        active[..] == if b.Some? then Highlighted(hrefs, sections[b.value]) else marked
    {
      this.hrefs := hrefs;
      this.present := present;
      sections := Resolve(hrefs, present);
      var flags := new bool[|marked|](j requires 0 <= j < |marked| => marked[j]);
      assert flags[..] == marked;
      active := flags;
      order := [];
      ratio := map[];
      ticking := false;
      pendingFrames := 0;
      new;
      assert active[..] == marked;
      assert "" !in sections;
      Seed();
      UpdateActiveByPosition(rects, header);
    }

    /** `sections.forEach(s => visibility.set(s.id, 0))`: every section starts with ratio 0, in nav order. */
    method Seed()
      requires order == [] && ratio == map[]
      requires active.Length == |hrefs| && "" !in sections
      modifies this
      ensures order == Seeded(sections) && Valid()
      ensures forall k :: k in ratio ==> ratio[k] == 0.0
      ensures ticking == old(ticking) && pendingFrames == old(pendingFrames)
    {
      var i := 0;
      while i < |sections|
        invariant 0 <= i <= |sections|
        invariant order == Seeded(sections[..i])
        invariant forall k :: k in ratio <==> k in order
        invariant forall k :: k in ratio ==> ratio[k] == 0.0
        invariant ticking == old(ticking) && pendingFrames == old(pendingFrames)
      {
        assert sections[..i + 1][..i] == sections[..i];
        var id := sections[i];
        if id !in ratio {
          order := order + [id];
        }
        ratio := ratio[id := 0.0];
        i := i + 1;
      }
      assert sections[..i] == sections;
    }

    /** Clear every link, then set the first link whose href is `#id`. */
    method Highlight(id: string)
      requires Valid()
      modifies active
      ensures active[..] == Highlighted(hrefs, id)
    {
      var j := 0;
      while j < active.Length
        invariant 0 <= j <= active.Length
        invariant forall t :: 0 <= t < j ==> !active[t]
      {
        active[j] := false;
        j := j + 1;
      }
      var link := FirstLink(hrefs, "#" + id);
      if link.Some? {
        active[link.value] := true;
      }
    }

    /**
     * The IntersectionObserver callback: overwrite the ratio of each reported
     * section, then highlight the first section of greatest positive ratio.
     * With no positive ratio the links are left as they were.
     */
    method OnIntersect(entries: seq<Report>)
      requires Valid()
      requires forall i :: 0 <= i < |entries| ==> entries[i].target in sections
      modifies this, active
      ensures Valid() && order == old(order)
      ensures ticking == old(ticking) && pendingFrames == old(pendingFrames)
      ensures ratio == Applied(old(ratio), entries)
      ensures var w := RatioLeader(order, ratio);
        active[..] == if w.Some? then Highlighted(hrefs, order[w.value]) else old(active[..])
      ensures RatioLeader(order, ratio).Some? || old(AtMostOneActive()) ==> AtMostOneActive()
    {
      var i := 0;
      while i < |entries|
        invariant 0 <= i <= |entries|
        invariant ratio == Applied(old(ratio), entries[..i])
        invariant forall k :: k in ratio <==> k in order
        invariant order == old(order) && ticking == old(ticking) && pendingFrames == old(pendingFrames)
        invariant active[..] == old(active[..])
      {
        assert entries[..i + 1][..i] == entries[..i];
        var e := entries[i];
        ratio := ratio[e.target := RatioOrZero(e.ratio)];
        i := i + 1;
      }
      assert entries[..i] == entries;
      var best := PickByRatio(order, ratio);
      if best.Some? {
        var bestId := order[best.value];
        if bestId != "" {
          Highlight(bestId);
        }
        HighlightedCount(hrefs, bestId);
      }
    }

    /** A nav link's click: clear every link and set the clicked one. */
    method Click(i: nat)
      requires Valid() && i < |hrefs|
      modifies active
      ensures active[..] == Marked(|hrefs|, Some(i))
      ensures active[i] && CountTrue(active[..]) == 1
    {
      var j := 0;
      while j < active.Length
        invariant 0 <= j <= active.Length
        invariant forall t :: 0 <= t < j ==> !active[t]
      {
        active[j] := false;
        j := j + 1;
      }
      active[i] := true;
      MarkedCount(|hrefs|, Some(i));
    }

    /**
     * `updateActiveByPosition`: highlight the first section in view whose top
     * is nearest the header's bottom; with none in view the links are left as
     * they were. Always clears `ticking`.
     */
    method UpdateActiveByPosition(rects: seq<Rect>, header: Option<nat>)
      requires Valid() && pendingFrames == 0 && |rects| == |sections|
      modifies this, active
      ensures Valid() && FrameGuard() && !ticking && pendingFrames == 0
      ensures order == old(order) && ratio == old(ratio)
      ensures var b := NearestLeader(rects, HeaderBar.LocatorHeight(header) as real);
        active[..] == if b.Some? then Highlighted(hrefs, sections[b.value]) else old(active[..])
      ensures NearestLeader(rects, HeaderBar.LocatorHeight(header) as real).Some? || old(AtMostOneActive()) ==>
        AtMostOneActive()
    {
      var headerH := HeaderBar.LocatorHeight(header) as real;
      var best := PickNearest(rects, headerH);
      if best.Some? {
        Highlight(sections[best.value]);
        HighlightedCount(hrefs, sections[best.value]);
      }
      ticking := false;
    }

    /** The scroll listener: request a frame only when none is pending. */
    method OnScroll()
      requires Valid() && FrameGuard()
      modifies this
      ensures Valid() && FrameGuard() && ticking
      ensures pendingFrames == old(pendingFrames) + (if old(ticking) then 0 else 1)
      ensures order == old(order) && ratio == old(ratio)
      ensures active[..] == old(active[..]) && (old(AtMostOneActive()) ==> AtMostOneActive())
    {
      if !ticking {
        ticking := true;
        pendingFrames := pendingFrames + 1;
      }
    }

    /** The requested animation frame runs `updateActiveByPosition`. */
    method RunFrame(rects: seq<Rect>, header: Option<nat>)
      requires Valid() && FrameGuard() && pendingFrames == 1 && |rects| == |sections|
      modifies this, active
      ensures Valid() && FrameGuard() && !ticking && pendingFrames == 0
      ensures order == old(order) && ratio == old(ratio)
      ensures var b := NearestLeader(rects, HeaderBar.LocatorHeight(header) as real);
        active[..] == if b.Some? then Highlighted(hrefs, sections[b.value]) else old(active[..])
      ensures NearestLeader(rects, HeaderBar.LocatorHeight(header) as real).Some? || old(AtMostOneActive()) ==>
        AtMostOneActive()
    {
      pendingFrames := 0;
      UpdateActiveByPosition(rects, header);
    }
  }
}
