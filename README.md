# Portfolio page script — a verified model

The portfolio site's client script (`porfolio/script.js`) wires browser
events to a handful of small pieces of logic. This project models those
pieces in Dafny, with the DOM reads turned into plain inputs, and proves
what the page relies on:

- **Scroll spy** (`ScrollSpy`, `ActiveNav`). The page finds the section that
  crosses a reading line 18 pixels under the sticky header. An 80-pixel
  header is assumed when there is none. It then highlights the nav link for
  that section. The classifier is a loop with an early `break`
  (`ScrollSpy.ChooseActiveId`). It is proved equal to a declarative
  specification (`ScrollSpy.ActiveSection`): the first straddling section,
  else the last section scrolled to, else the first section, else `""`.
- **Active-link cache** (`ActiveNav.NavSpy`). This class holds the cached
  `activeId`, one "is-active" flag per link (an array), and the `navById`
  table built from the links' `href`s. `SetActiveNav` is proved against a
  pure transition (`ActiveNav.NextNav`). The lemmas show that the update is
  skipped for an empty or unchanged id, that a repeated call does nothing,
  and that once an id is active at most one link is flagged.
- **Scroll throttle** (`NavSpy.OnSpyScroll`, `NavSpy.AnimationFrame`).
  While a pass is pending, a scroll or resize event schedules nothing. The
  pending pass classifies the sections and then clears the flag.
- **HTML escaper** (`HtmlEscape`). The five chained `replaceAll` passes,
  ampersand first, are proved equal to escaping each character on its own.
  Two consequences follow. The output holds no `<`, `>`, `"` or `'`. Text
  without special characters passes through unchanged. A browser decoding
  the five entities (`HtmlEscape.Unescape`) gets the original text back.
- **Theme** (`Theme`). The saved value is used when it is exactly "light"
  or "dark"; otherwise the system preference decides. The toggle turns
  "dark" into "light". A missing or empty attribute counts as "dark", so it
  also becomes "light"; anything else becomes "dark". Every write sets the
  attribute and storage to the same value.
- **Mobile nav** (`NavMenu`). This covers the open/closed state of the menu
  and its close triggers: a link click, an outside click, or Escape.
- **Back-to-top** (`BackToTop`). The button is visible exactly when the
  scroll offset exceeds 600.

Layout values are inputs. Section extents are `real`, since
`getBoundingClientRect` yields fractional pixels. The header height is a
`nat`, since `offsetHeight` is an integer. A missing `href` attribute is the
empty string, as the script's `|| ""` makes it.

## Model

| member | source | states |
|---|---|---|
| `ScrollSpy.ReadingLine` | porfolio/script.js:112-113 | the reading line is the header height plus 18, and 98 when the page has no header |
| `ScrollSpy.FirstStraddling` | porfolio/script.js:116-124 | finds the first section in document order with `top <= y < bottom`, or reports that none straddles |
| `ScrollSpy.LastReached` | porfolio/script.js:125-126 | finds the last section with `top <= y`, or reports that none has been reached |
| `ScrollSpy.ActiveSection` | porfolio/script.js:114-126 | the declarative rule: an empty page chooses `""`, and on a non-empty page the chosen id is the id of one of its sections |
| `ScrollSpy.ChooseActiveId` | porfolio/script.js:111-127 | the loop with its early `break` returns exactly the id the declarative rule `ActiveSection` chooses |
| `ScrollSpy.CandidateExtend` | porfolio/script.js:125-126 | examining one more non-straddling section replaces the candidate exactly when that section has been reached |
| `ScrollSpy.StraddlingWins` | porfolio/script.js:120-124 | a section that straddles the line, with no straddling section before it, is chosen |
| `ScrollSpy.LaterSectionsIrrelevant` | porfolio/script.js:121-124 | once a prefix of the page holds a straddling section, sections appended after it never change the choice |
| `ScrollSpy.NoStraddlingFallsBack` | porfolio/script.js:114-126 | with no straddling section the choice is the last section reached, else the first section, else `""` for no sections |
| `ScrollSpy.MiddleSectionScenario` | porfolio/script.js:116-124 | three stacked sections with the line inside the middle one choose the middle one |
| `ScrollSpy.ScrolledPastAllScenario` | porfolio/script.js:125-126 | when every section lies above the line, the last section is chosen |
| `ActiveNav.LinkKey` | porfolio/script.js:95-96 | a link's key is empty unless its href is `#` followed by at least one character, and then the href is `#` plus the key |
| `ActiveNav.NavById` | porfolio/script.js:92-99 | the empty key is never in the table (filtered out), and every entry names one of the links |
| `ActiveNav.NavByIdCovers` | porfolio/script.js:92-99 | every link whose href is `#` plus a non-empty id has that id in the table |
| `ActiveNav.NavByIdLastWins` | porfolio/script.js:92-99 | each key maps to a link carrying it, and no later link carries it: for a repeated key the later link wins |
| `ActiveNav.Highlighted` | porfolio/script.js:107-108 | one flag per link; a flag is set only on the link `navById` maps the id to, and that link's flag is set |
| `ActiveNav.NextNav` | porfolio/script.js:104-109 | the flag count is kept; the cached id becomes the new id unless that id is empty; when the cached id does not move, nothing changes |
| `ActiveNav.HighlightedCount` | porfolio/script.js:107-108 | clearing all flags and setting the mapped link's flag leaves one flag set when the id has a link, and none otherwise |
| `ActiveNav.NextNavSkips` | porfolio/script.js:105 | an empty id, or the id already cached, leaves the cache and every flag unchanged |
| `ActiveNav.NextNavIdempotent` | porfolio/script.js:104-109 | calling `setActiveNav` twice with the same id has the same effect as calling it once |
| `ActiveNav.NextNavMarksOne` | porfolio/script.js:106-108 | after a new non-empty id, the cache holds it and exactly the mapped link is flagged, or no link when the id has none |
| `ActiveNav.NextNavConsistent` | porfolio/script.js:104-109 | every update keeps the flags in agreement with the cached id |
| `ActiveNav.AtMostOneActive` | porfolio/script.js:106-108 | once an id is cached, at most one link carries the active flag |
| `ActiveNav.NavSpy.constructor` | porfolio/script.js:92-102 | at load the table is built from the links, nothing is cached, no pass is pending, and the flags are as the markup had them |
| `ActiveNav.NavSpy.SetActiveNav` | porfolio/script.js:104-109 | the cache and the link flags move exactly as `NextNav` prescribes, and the flags stay in agreement with the cached id |
| `ActiveNav.NavSpy.ComputeActiveSection` | porfolio/script.js:111-129 | classifies the sections against the reading line and hands the chosen id to `setActiveNav` |
| `ActiveNav.NavSpy.OnSpyScroll` | porfolio/script.js:131-133 | schedules a pass exactly when none is pending, and leaves a pass pending |
| `ActiveNav.NavSpy.AnimationFrame` | porfolio/script.js:134-137 | the scheduled pass classifies and updates the links, then clears the pending flag |
| `HtmlEscape.ReplaceAll` | porfolio/script.js:310-314 | after a pass the pattern character is gone unless the replacement contains it, and no character absent from both the input and the replacement appears |
| `HtmlEscape.EscapeHtml` | porfolio/script.js:308-315 | the five-pass chain leaves no `<`, `>`, `"` or `'` in its output, whatever the input |
| `HtmlEscape.EscapeChar` | porfolio/script.js:310-314 | each character's replacement is non-empty, holds no `<`, `>`, `"` or `'`, and is the character itself exactly when the character is not one of the five special ones |
| `HtmlEscape.EscapeHtmlChar` | porfolio/script.js:308-315 | on a single character the five-pass chain yields that character's entity, so no inserted entity is escaped again |
| `HtmlEscape.EscapeHtmlIsPerChar` | porfolio/script.js:308-315 | the sequential chain of replacements equals escaping every character independently |
| `HtmlEscape.EscapeEachLength` | porfolio/script.js:308-315 | escaping never shortens text, and keeps its length exactly when no character is special |
| `HtmlEscape.EscapeHtmlIdentity` | porfolio/script.js:308-315 | text passes through unchanged if and only if it holds none of the five special characters |
| `HtmlEscape.UnescapeEscape` | porfolio/script.js:308-315 | decoding the five entities in the escaped text gives back the original text |
| `Theme.PreferredTheme` | porfolio/script.js:16-20 | the result is always a theme; a saved "light" or "dark" is returned verbatim; otherwise the result is "dark" exactly when the system prefers dark |
| `Theme.ToggledTheme` | porfolio/script.js:33-34 | the result is always a theme, and it is "light" exactly when the attribute is missing, empty or "dark" |
| `Theme.ToggleFlips` | porfolio/script.js:33-34 | toggling a theme changes it, and toggling twice restores it |
| `Theme.ToggleAlternates` | porfolio/script.js:32-35 | after the first toggle, repeated toggles alternate between the two themes |
| `Theme.ThemeStore.Load` | porfolio/script.js:16-28 | at load the preferred theme is written to both the attribute and storage |
| `Theme.ThemeStore.SetTheme` | porfolio/script.js:22-25 | the attribute and storage receive the same value |
| `Theme.ThemeStore.Toggle` | porfolio/script.js:32-35 | the attribute becomes the toggled theme and storage agrees with it |
| `NavMenu.BoolText` | porfolio/script.js:44 | the `aria-expanded` text is "true" exactly when the menu is opened |
| `NavMenu.OutsideClickCloses` | porfolio/script.js:61-65 | the document handler closes the menu only when both elements exist, the menu is open, and the click lands on a node outside the menu and outside the button |
| `NavMenu.InsideClickKeepsMenu` | porfolio/script.js:60-67 | a click inside the menu or on the toggle button never closes the menu through the document handler |
| `NavMenu.Menu.SetNavOpen` | porfolio/script.js:42-47 | with both elements present, the attribute and the class both take the new state, and opening focuses the first link; otherwise nothing changes |
| `NavMenu.Menu.ToggleClick` | porfolio/script.js:49-52 | the menu opens exactly when the button did not read as expanded; opening focuses the first link when there is one, and otherwise the focus is untouched |
| `NavMenu.Menu.LinkClick` | porfolio/script.js:55-57 | a link click closes the menu and leaves the focus untouched |
| `NavMenu.Menu.DocumentClick` | porfolio/script.js:60-68 | the menu closes exactly when it is open and the click lands on a node outside both the menu and the button; otherwise nothing changes; the focus is never moved |
| `NavMenu.Menu.KeyDown` | porfolio/script.js:69-71 | Escape closes the menu, any other key changes nothing, and the focus is never moved |
| `BackToTop.Button.SetToTop` | porfolio/script.js:201-204 | the button is visible exactly when the scroll offset exceeds 600 |

## Left out

- DOM queries, `addEventListener` wiring and `classList`/attribute plumbing are browser APIs. Elements become inputs, and a missing element becomes a `present` flag.
- `requestAnimationFrame` timing is left out. Only the pending flag is modelled; frame scheduling and event coalescing are not.
- The reveal-on-scroll animation (porfolio/script.js:145-157) is left out because an IntersectionObserver callback drives it.
- The pointer "spotlight" (porfolio/script.js:160-174) is left out because it is floating-point division over layout values.
- Clipboard copy and its `execCommand` fallback (porfolio/script.js:177-197) are left out because they are asynchronous foreign calls.
- The toast timer, the focus handling after smooth scrolling (porfolio/script.js:74-87), `window.print` and the footer year are left out because they are timers, I/O and the clock.
- The mailto contact form (porfolio/script.js:217-233) is left out because it depends on `encodeURIComponent` and on navigating the window. One detail is not modelled: an empty trimmed name makes the subject say "Someone".
- Modal rendering and the static `modalData` table (porfolio/script.js:236-306, 317-325) are left out because they are `innerHTML` and focus plumbing. The part with logic, `escapeHtml`, is modelled.
- HtmlEscape.ReplaceAll: `replaceAll` is modelled only for a one-character pattern, which is the only kind the escaper uses. `String(str)` is not modelled; inputs are already strings.
- BackToTop.Button.SetToTop: the `|| 0` fallback on `scrollY` is not modelled. It only replaces 0 or NaN, and neither exceeds 600, so visibility is the same.
- ActiveNav.NavSpy.constructor: the initial link flags are whatever the markup sets. So "at most one link active" is proved only once an id has been cached, not from page load.
- Element focus is recorded only as the index of the focused nav link (`NavMenu.Menu.focused`). The browser's focus model is not modelled.
