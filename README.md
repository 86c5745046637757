# Active-section locator of a portfolio page, modelled in Dafny

The page script (`script.js`) highlights the navigation link of the section
the reader is looking at, and keeps two preferences: the colour theme and
whether the sticky header is shown. This project models the part of the
script that makes decisions, and proves what those decisions guarantee.

- **NavLocator.Locator** (`locator.dfy`) is the active-section locator as one
  object. It holds the nav links' `href`s and their `active` flags (an
  `array<bool>`), the resolved sections, and the `visibility` Map (its key
  insertion order plus a `map` from id to ratio). It also holds the `ticking`
  flag and the number of animation frames requested and not yet run. Each
  event handler is one method: the IntersectionObserver callback, a nav
  click, the scroll listener, the animation frame that runs
  `updateActiveByPosition`, and setup.
- **Selection** (`selection.dfy`) holds the two scans, each as a method with
  the source's loop. Each method is proved equal to a recursive
  specification function, and a lemma characterises that function:
  - the ratio scan picks the first entry with the greatest positive ratio,
    or nothing when no ratio is positive;
  - the position scan skips sections with `bottom <= headerH + 4` and picks
    the first section with the smallest `|top - headerH|`, or nothing when
    every section is scrolled past.
- **Visibility** (`visibility.dfy`) says what the Map holds:
  - after seeding, each section in nav order, each once, with ratio 0;
  - after an observer batch, each reported id holds its last reported ratio,
    0 when that report has none. Other ids keep their ratio, and no key is
    added or removed.
- **NavLinks** (`navlinks.dfy`) resolves an `href` to a section id
  (`href.slice(1)`, dropped when no element has that id). It also models the
  `a[href="#id"]` lookup (the first link whose `href` is exactly `#id`) and
  counts the active flags. Clearing every link and then setting one leaves
  exactly one active link.
- **Theme** (`theme.dfy`) and **HeaderBar** (`header.dfy`) are pure functions:
  - the theme: the stored theme or else the OS preference, the toggle, and
    the stored value that brings the toggled theme back after a reload;
  - the header: the saved visibility flag and its decode, the header toggle,
    the `--header-height` value (0 while hidden), and the header height the
    locator measures against (0 when the page has no header).

Browser inputs are parameters:
- intersection ratios are `Option<real>`, `None` standing for a missing or
  NaN ratio;
- section rectangles are `real`s and header heights are `nat`s;
- stored strings are `Option<string>`;
- the media query result is `Option<bool>`, `None` when `matchMedia` is
  unavailable;
- the document's element ids are a `set<string>`.

Behaviour of the code worth noting:
- **Ratio ties.** The ratio scan restarts from a best ratio of 0 on every
  batch, and it replaces the best only on a strictly greater ratio. So a tie
  goes to the entry earliest in the Map's insertion order (nav order),
  whichever section was active before.
- **Header height in the scroll fallback.** The fallback measures against the
  header's `offsetHeight`, whatever its `hidden` class. It uses 0 only when
  the page has no header element. The value written to `--header-height` is
  the one that is 0 while the header is hidden.
- **At most one active link.** The code does not enforce this from page
  load. The markup's initial `active` classes stay until some rule picks a
  winner. A winner whose section has no link with `href` exactly `#id`
  leaves no link active. What is proved:
  - after any winner or click, at most one link is active, and exactly one
    after a click;
  - at most one active link is preserved by every handler;
  - when every nav link is a `#id` anchor, highlighting a resolved section
    leaves exactly one link active.
- **Click target.** A click activates the clicked link itself. The other
  rules activate the first link whose `href` is `#id` for the chosen section.
  The two differ when two links share a target.

## Model

| member | source | states |
|---|---|---|
| Theme.Preferred | script.js:8-12 | a non-empty stored theme decides by being "dark"; otherwise the OS preference decides, and no `matchMedia` means light |
| Theme.ThemeAttr | script.js:14-16 | the attribute written reads back as dark exactly when dark was applied, and is "dark" or "light" |
| Theme.Toggle | script.js:27-31 | the applied theme is the opposite of the current one, and the stored string equals the applied attribute |
| Theme.InitialAttr | script.js:23-24 | the theme applied at load is dark exactly when the preference is dark |
| Theme.ToggleRemembered | script.js:8-31 | after a toggle, the stored value alone yields the toggled theme at the next load, whatever the OS prefers |
| Theme.ToggleTwice | script.js:27-31 | two toggles restore the original theme |
| Theme.StoredThemeOverridesSystem | script.js:9-11 | with a non-empty stored theme, the OS preference has no effect |
| HeaderBar.EncodeVisible | script.js:49 | the saved visibility flag is a one-character string |
| HeaderBar.DecodeVisible | script.js:185-186 | nothing saved decodes as visible; otherwise visible exactly when the saved string is "1" |
| HeaderBar.VisibleRoundTrip | script.js:49 | decoding what `setHeaderVisible` saved gives back the visibility it was given |
| HeaderBar.HiddenAfterLoad | script.js:184-187 | after load the header is hidden exactly when it already was or the saved flag says hidden; the handler never un-hides |
| HeaderBar.ToggleHeader | script.js:36-56 | a header-toggle click flips `hidden` and saves a flag that decodes to the new visibility |
| HeaderBar.ToggleHeaderRemembered | script.js:183-187 | reloading a page whose header starts shown restores the hidden state the last toggle set |
| HeaderBar.HeightVar | script.js:169-179 | `--header-height` is 0 while the header is hidden, and its offset height otherwise |
| HeaderBar.LocatorHeight | script.js:124-125 | the fallback's header height is 0 without a header element, and its offset height otherwise |
| NavLinks.Target | script.js:70 | a link's target is its href without the first character, and "" for an empty href |
| NavLinks.Resolve | script.js:69-70 | every resolved section is a non-empty id present in the document and some link's target; every link whose target is present yields a section |
| NavLinks.ResolveAppend | script.js:69-70 | resolution goes link by link in nav order: a run of links followed by another resolves to the first run's sections followed by the second's, so each resolving link gives one entry at its place and repeated targets repeat |
| NavLinks.FirstLink | script.js:105 | the selector returns the first link whose href is exactly the given one, or nothing when no link has it |
| NavLinks.ResolvedSectionHasLink | script.js:70 | when every nav link is a `#id` anchor, every resolved section has a link the selector finds |
| NavLinks.Marked | script.js:104-106 | after clearing every link and setting link `k`, link `j` is active exactly when `j` is `k`; a `k` out of range leaves every link cleared |
| NavLinks.MarkedCount | script.js:104-106 | clearing all links and setting one leaves exactly one active link, or none when there is no link to set |
| Visibility.Seeded | script.js:110-111 | seeding leaves each section id in the Map exactly once, and no other key |
| Visibility.SeededFirstOccurrenceOrder | script.js:110-111 | the Map's keys are ordered by each id's first occurrence in the section list, as `set` of a known key keeps its place |
| Visibility.SeededDistinct | script.js:110-111 | when the nav names each section once, the Map's key order is the nav order |
| Visibility.LastReport | script.js:89-91 | finds the last entry of a batch reporting on an id, or nothing when no entry reports on it |
| Visibility.Applied | script.js:89-91 | the ratios after a batch; its keys are the old keys plus every id the batch reports on |
| Visibility.AppliedAt | script.js:89-91 | after a batch every key is kept; a reported id holds its last report's ratio (0 when missing); any other id keeps its ratio |
| Visibility.AppliedKeys | script.js:87-91 | a batch reporting only on known ids leaves the key set unchanged |
| Selection.RatioLeader | script.js:94-101 | the scan's choice, if any, is an entry with a positive ratio |
| Selection.RatioLeaderIsFirstMax | script.js:94-101 | the scan chooses nothing exactly when no ratio is positive; otherwise it chooses exactly the first entry of greatest ratio |
| Selection.PickByRatio | script.js:93-101 | the loop computes the scan's choice: nothing when no ratio is positive, or the first entry of greatest positive ratio |
| Selection.NearestLeader | script.js:126-135 | the fallback's choice, if any, is a section that is not scrolled past |
| Selection.NearestLeaderIsFirstNearest | script.js:126-135 | nothing is chosen exactly when every section is scrolled past; otherwise the first section in view of least distance to the header bottom is chosen |
| Selection.PickNearest | script.js:126-135 | the loop computes that choice, with `Infinity` as "no best yet" |
| NavLocator.Highlighted | script.js:104-106 | the flags after highlighting section `id`: link `j` is active exactly when its href is `#id` and no earlier link's href is |
| NavLocator.HighlightedCount | script.js:104-106 | highlighting a section leaves one active link if a `#id` link exists for it, and none otherwise |
| NavLocator.HighlightedSectionIsUnique | script.js:137-139 | with all nav links `#id` anchors, highlighting a resolved section leaves exactly one active link |
| NavLocator.Locator.constructor | script.js:68-152 | setup resolves the sections, seeds each with ratio 0 in nav order, and runs the position fallback once over the markup's flags; `ticking` is false |
| NavLocator.Locator.Seed | script.js:110-113 | the Map's key order is the section list with repeats dropped, each id at its first occurrence; every ratio is 0 |
| NavLocator.Locator.Highlight | script.js:104-106 | all links are cleared, then only the first link whose href is `#id` is set |
| NavLocator.Locator.OnIntersect | script.js:88-107 | ratios become the batch applied to the old ratios, with the key order unchanged; the first entry of greatest positive ratio is highlighted; with no positive ratio the flags are unchanged; at most one active link afterwards, or as before |
| NavLocator.Locator.Click | script.js:116-119 | afterwards the clicked link is the only active link, whatever the previous flags |
| NavLocator.Locator.UpdateActiveByPosition | script.js:123-142 | highlights the fallback's choice, or leaves the flags unchanged when every section is scrolled past; `ticking` is false on return |
| NavLocator.Locator.OnScroll | script.js:144-149 | while `ticking`, nothing is scheduled; otherwise `ticking` becomes true and exactly one frame is requested, so at most one is ever pending; the link flags are unchanged |
| NavLocator.Locator.RunFrame | script.js:145-147 | the pending frame runs the position update, leaving no frame pending and `ticking` false; at most one active link afterwards if a section was chosen, or if there was at most one before |

## Left out

- Element lookup beyond ids: a nav link is its `href` string and a section
  is its id. An anchor in `.main-nav` without the `nav-link` class, which the
  highlight selector could also match, is assumed absent.
- A link without an `href` attribute is not modelled. In the script it makes
  `slice` throw and stops the locator's setup.
- The highlight selector is modelled as exact `href` equality. An id
  containing characters that break the CSS attribute selector is not
  modelled.
- The IntersectionObserver's thresholds and root margin are not modelled.
  The browser's batches are taken as given, and each entry reports on an
  observed section.
- `requestAnimationFrame` timing is not modelled. Only the count of
  requested frames is kept.
- Layout is not computed. `getBoundingClientRect` results and
  `offsetHeight` are parameters. The rectangles are given per position in
  the section list, so a section listed twice may be given two rectangles.
- Floating-point numbers are modelled as exact `real`s, and NaN as a missing
  ratio. The code only compares and subtracts these values.
- The first click handler's `scrollIntoView` and `history.replaceState`
  (script.js:73-83) are I/O.
- `localStorage` writes and reads are not modelled as storage. Stored
  values are inputs, and written values are results. `matchMedia` is an
  input.
- The resize and load listeners and the MutationObserver that re-run
  `updateHeaderHeight` are not modelled. Only the value that function
  computes and the load handler's hide decision are.
- `setHeaderVisible`'s call of `updateHeaderHeight` (script.js:48) is not
  modelled. That function is not in scope there, so the call never happens.
- The header toggle assumes the header exists. Without it, the click
  handler fails on the missing element.
- The button labels, emoji, `aria-pressed` values and CSS-variable strings
  are cosmetic. The `.scrolled` class toggle (script.js:154-161) is left out
  for the same reason.
- Interleaving of the two strategies is not modelled beyond running each
  handler as one atomic method on the shared object. The browser decides
  the event order.
