/**
 * Header visibility and header height (script.js, first and third IIFE):
 * the saved visibility flag, the toggle button, the `--header-height` value
 * and the header height read by the active-section locator.
 * It is assumed throughout that the page has a `.site-header` element
 * except in `LocatorHeight`, which handles its absence.
 */
module HeaderBar {
  import opened Options

  /** `setHeaderVisible` stores '1' for visible and '0' for hidden. */
  function EncodeVisible(visible: bool): (saved: string)
    ensures |saved| == 1
  {
    if visible then "1" else "0"
  }

  /** The load handler's decode: nothing saved means visible, otherwise only '1' is visible. */
  function DecodeVisible(saved: Option<string>): (visible: bool)
    ensures saved.None? ==> visible
    ensures saved.Some? ==> (visible <==> saved.value == "1")
  {
    if saved.None? then true else saved.value == "1"
  }

  lemma VisibleRoundTrip(visible: bool)
    ensures DecodeVisible(Some(EncodeVisible(visible))) == visible
  {
  }

  /**
   * The load handler adds the `hidden` class when the saved flag says hidden;
   * it never removes the class, so a header already hidden stays hidden.
   */
  function HiddenAfterLoad(hiddenBefore: bool, saved: Option<string>): (hidden: bool)
    ensures hidden <==> hiddenBefore || !DecodeVisible(saved)
    ensures !hiddenBefore ==> (hidden <==> saved.Some? && saved.value != "1")
  {
    if !DecodeVisible(saved) then true else hiddenBefore
  }

  /** What one click on the header toggle leaves behind. */
  datatype HeaderToggled = HeaderToggled(hidden: bool, saved: string)

  /** The header toggle's click handler: flip the `hidden` class and store the new visibility. */
  function ToggleHeader(hidden: bool): (t: HeaderToggled)
    ensures t.hidden == !hidden
    ensures DecodeVisible(Some(t.saved)) == !t.hidden
  {
    var isVisible := !hidden;
    var visible := !isVisible;
    HeaderToggled(!visible, EncodeVisible(visible))
  }

  /** A header toggle survives a reload of a page whose header starts shown. */
  lemma ToggleHeaderRemembered(hidden: bool)
    ensures HiddenAfterLoad(false, Some(ToggleHeader(hidden).saved)) == ToggleHeader(hidden).hidden
  {
  }

  /** `updateHeaderHeight`: the pixel value written to `--header-height`; 0 while hidden. */
  function HeightVar(hidden: bool, offsetHeight: nat): (px: nat)
    ensures hidden ==> px == 0
    ensures !hidden ==> px == offsetHeight
  {
    if hidden then 0 else offsetHeight
  }

  /**
   * The header height the scroll fallback measures against: the header's
   * `offsetHeight` (`header == Some(h)`), or 0 when the page has no header.
   */
  function LocatorHeight(header: Option<nat>): (h: nat)
    ensures header.None? ==> h == 0
    ensures header.Some? ==> h == header.value
  {
    if header.Some? then header.value else 0
  }
}
