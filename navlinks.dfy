/**
 * The navigation links of the locator (script.js, second IIFE): how a link's
 * href resolves to a section, how `querySelector('.main-nav a[href="#id"]')`
 * finds a link, and the per-link `active` flags the locator writes.
 * A link is represented by its `href` attribute.
 */
module NavLinks {
  import opened Options

  /** `href.slice(1)`: the id an in-page link names. */
  function Target(href: string): (id: string)
    ensures |href| > 0 ==> href == [href[0]] + id
    ensures |href| == 0 ==> id == ""
  {
    if |href| == 0 then "" else href[1..]
  }

  /** A link names an element of the document; `getElementById("")` finds none. */
  predicate Resolves(href: string, present: set<string>)
  {
    Target(href) != "" && Target(href) in present
  }

  /**
   * The section list: each link's target in nav order, dropping those that
   * name no element (`filter(Boolean)`).
   */
  function Resolve(hrefs: seq<string>, present: set<string>): (ids: seq<string>)
    ensures |ids| <= |hrefs|
    ensures forall i :: 0 <= i < |ids| ==> ids[i] != "" && ids[i] in present
    ensures forall i :: 0 <= i < |ids| ==> exists k :: 0 <= k < |hrefs| && Target(hrefs[k]) == ids[i]
    ensures forall k :: 0 <= k < |hrefs| && Resolves(hrefs[k], present) ==> Target(hrefs[k]) in ids
  {
    if hrefs == [] then []
    else
      var tail := Resolve(hrefs[1..], present);
      assert forall k :: 1 <= k < |hrefs| ==> hrefs[k] == hrefs[1..][k - 1];
      (if Resolves(hrefs[0], present) then [Target(hrefs[0])] else []) + tail
  }

  /**
   * Resolution works link by link in nav order: the sections of two runs of
   * links are those of the first run followed by those of the second, so a
   * link contributes one entry at its own place, and a repeated target repeats.
   */
  lemma {:induction false} ResolveAppend(h1: seq<string>, h2: seq<string>, present: set<string>)
    ensures Resolve(h1 + h2, present) == Resolve(h1, present) + Resolve(h2, present)
  {
    if h1 != [] {
      assert (h1 + h2)[1..] == h1[1..] + h2;
      ResolveAppend(h1[1..], h2, present);
    } else {
      assert h1 + h2 == h2;
    }
  }

  /** `querySelector('.main-nav a[href="' + href + '"]')`: the first link whose href is exactly `href`. */
  function FirstLink(hrefs: seq<string>, href: string): (k: Option<nat>)
    ensures k.Some? ==> k.value < |hrefs| && hrefs[k.value] == href
    ensures k.Some? ==> forall j :: 0 <= j < k.value ==> hrefs[j] != href
    ensures k.None? ==> forall j :: 0 <= j < |hrefs| ==> hrefs[j] != href
  {
    if hrefs == [] then None
    else if hrefs[0] == href then Some(0)
    else
      match FirstLink(hrefs[1..], href)
      case None => None
      case Some(j) => Some(j + 1)
  }

  /**
   * When every nav link is an in-page anchor `#id`, every resolved section has
   * a link the selector finds.
   */
  lemma {:induction false} ResolvedSectionHasLink(hrefs: seq<string>, present: set<string>, id: string)
    requires forall k :: 0 <= k < |hrefs| ==> |hrefs[k]| > 0 && hrefs[k][0] == '#'
    requires id in Resolve(hrefs, present)
    ensures FirstLink(hrefs, "#" + id).Some?
  {
    var ids := Resolve(hrefs, present);
    var i :| 0 <= i < |ids| && ids[i] == id;
    var k :| 0 <= k < |hrefs| && Target(hrefs[k]) == id;
    assert hrefs[k] == "#" + id;
  }

  /** The `active` flags after clearing every link and then setting link `k`, if there is one. */
  function Marked(n: nat, k: Option<nat>): (flags: seq<bool>)
    ensures |flags| == n
    ensures forall j :: 0 <= j < n ==> (flags[j] <==> k == Some(j))
  {
    seq(n, j => k == Some(j))
  }

  /** The number of links marked active. */
  function CountTrue(flags: seq<bool>): nat
  {
    if flags == [] then 0
    else CountTrue(flags[..|flags| - 1]) + (if flags[|flags| - 1] then 1 else 0)
  }

  /** Clearing and then marking one link leaves exactly that link active, or none if it is out of range. */
  lemma {:induction false} MarkedCount(n: nat, k: Option<nat>)
    ensures CountTrue(Marked(n, k)) == if k.Some? && k.value < n then 1 else 0
  {
    if n > 0 {
      assert Marked(n, k)[..n - 1] == Marked(n - 1, k);
      MarkedCount(n - 1, k);
    }
  }
}
