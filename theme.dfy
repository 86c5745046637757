/**
 * Theme preference of the page (script.js, first IIFE): which theme is applied
 * at load, what the toggle button does, and what it remembers.
 * Storage and the `prefers-color-scheme` media query are inputs.
 */
module Theme {
  import opened Options

  /** The toggle's reading of the `data-theme` attribute: only "dark" is dark. */
  predicate IsDark(attr: string)
  {
    attr == "dark"
  }

  /**
   * `getPreferred`: a stored theme that is a non-empty string decides by being
   * "dark"; otherwise the OS preference decides, and a browser without
   * `matchMedia` (`media == None`) prefers light.
   */
  function Preferred(stored: Option<string>, media: Option<bool>): (dark: bool)
    ensures stored.Some? && stored.value != "" ==> (dark <==> stored.value == "dark")
    ensures stored.None? || stored.value == "" ==> (dark <==> media == Some(true))
  {
    if stored.Some? && stored.value != "" then stored.value == "dark"
    else media == Some(true)
  }

  /** `apply`: the value written to `data-theme`. */
  function ThemeAttr(dark: bool): (attr: string)
    ensures IsDark(attr) <==> dark
    ensures attr == "dark" || attr == "light"
  {
    if dark then "dark" else "light"
  }

  /** What one click on the theme toggle leaves behind. */
  datatype Toggled = Toggled(attr: string, stored: string)

  /** The toggle's click handler: apply the opposite theme and store its name. */
  function Toggle(attr: string): (t: Toggled)
    ensures IsDark(t.attr) <==> !IsDark(attr)
    ensures t.stored == t.attr
  {
    var now := IsDark(attr);
    Toggled(ThemeAttr(!now), if !now then "dark" else "light")
  }

  /** The attribute applied when the page loads. */
  function InitialAttr(stored: Option<string>, media: Option<bool>): (attr: string)
    ensures IsDark(attr) <==> Preferred(stored, media)
  {
    ThemeAttr(Preferred(stored, media))
  }

  /** A toggle survives a reload: what it stored reproduces the toggled theme, whatever the OS prefers. */
  lemma ToggleRemembered(attr: string, media: Option<bool>)
    ensures InitialAttr(Some(Toggle(attr).stored), media) == Toggle(attr).attr
  {
  }

  /** Two clicks restore any theme the page can show. */
  lemma ToggleTwice(dark: bool)
    ensures Toggle(Toggle(ThemeAttr(dark)).attr).attr == ThemeAttr(dark)
  {
  }

  /** Once a stored theme is present, the OS preference no longer matters. */
  lemma StoredThemeOverridesSystem(stored: string, media1: Option<bool>, media2: Option<bool>)
    requires stored != ""
    ensures InitialAttr(Some(stored), media1) == InitialAttr(Some(stored), media2)
  {
  }
}
