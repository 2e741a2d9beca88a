# Portfolio page interactivity: a verified model

This project models the parts of the portfolio site's page script that carry logic (`assets/js/main.js`). It covers four pieces:

- **Theme preference controller** (`ThemeControl`). The document's `data-theme` attribute, the `theme` entry in local storage, the operating system's "prefers dark" signal and the optional icon element. Start-up resolution, the toggle click, the system-change listener and `updateThemeIcon` are modelled.
  - `Apply` and `Run` describe the events on values.
  - The class `ThemeController` holds the same state as fields. Its methods are proved to perform `Apply`.
  - The central invariant is `Consistent`. At every moment, and not only at start-up, the attribute equals what start-up resolution would choose from the current storage entry and system signal. The icon (when present) shows a moon exactly for `dark`.
- **Typing animation** (`Typing`). `typeText` is a step over the closure variables `textIndex`, `charIndex` and `isDeleting`. Each step writes a prefix of the current phrase and schedules the next step after `typingSpeed` milliseconds.
  - `TypeStep` is one step on values. It uses JavaScript's clamping `substring` (`JsSubstring`).
  - `Typewriter.TypeText` is the step as the handler performs it, on fields.
  - The lemmas cover the cursor invariant, the shown prefix, the exact rise and fall of the character index within a phrase, the delays, and the cyclic order of the phrases.
- **Active navigation highlighting** (`ActiveNav`). `updateActiveNav` goes through the sections in document order and compares each interval `[top, top + height)` with `scrollY + 100`. It is modelled as an in-place loop over an array of active flags, proved equal to a left-to-right `Scan`. `ScanSelectsLast` proves that the scan amounts to "the last matching section's link only, or nothing changes".
- **Project filter** (`ProjectFilter`). The `.filter-btn` click handler is modelled as loops over two arrays of active flags: the buttons and the categories.

Elapsed time appears only as the delays that steps return. The DOM appears as fields, arrays of flags, and integer section geometry.

Three consequences of the code that are easy to overlook:

- **Scroll offset.** `updateActiveNav` compares `scrollY + 100` with the sections. With sections `[0,100)` and `[100,300)`, both `scrollY = 50` and `scrollY = 150` select the second section (`ActiveNav.OffsetExample`).
- **Theme values.** Start-up adopts any non-empty stored string verbatim as the theme, not only `light` or `dark`. The icon then shows the sun, and the toggle maps such a value to `dark`.
- **No throttling of the highlight.** `updateActiveNav` is attached to `scroll` directly. Only `updateNavbar` goes through `requestAnimationFrame`. This does not change what one call computes.

The value-level definitions that the methods and lemmas below are stated against:

- **Theme.** `ThemeControl.StartupTheme` (assets/js/main.js:12-24) is start-up resolution, `ThemeControl.Load` (assets/js/main.js:11-24) is the page after start-up, and `ThemeControl.Apply` (assets/js/main.js:28-37 for a toggle, 74-80 for a system change) is one event.
- **Typing.** `Typing.TypeStep` (assets/js/main.js:124-148) is one call of `typeText`, made of `Typing.ShownText` (lines 127-135), `Typing.NextCursor` (lines 127-146) and `Typing.StepDelay` (lines 130-145).
- **Navigation.** `ActiveNav.Scan` (assets/js/main.js:181-191) is the loop visiting sections in document order. `ActiveNav.Selected` (assets/js/main.js:178-192) is its outcome: the last match's link only, or nothing changed.
- **Filter.** `ProjectFilter.TargetId` (assets/js/main.js:103) is the id built from the template literal. `ProjectFilter.ShownCategories` (assets/js/main.js:101-106) gives the category flags after a click.

## Model

| member | source | states |
|---|---|---|
| `ThemeControl.ToggledTheme` | assets/js/main.js:29-30 | the committed value is `light` exactly when the current attribute is `dark`, and `dark` for every other value (including unknown ones) |
| `ThemeControl.IconFor` | assets/js/main.js:82-86 | the icon class is `fas fa-moon` exactly when the theme is `dark`, `fas fa-sun` otherwise |
| `ThemeControl.LoadResolves` | assets/js/main.js:11-24 | at start-up the saved value wins when it is truthy (present and non-empty); otherwise OS dark gives `dark` and everything else `light`; the resulting page satisfies the precedence invariant and the icon follows the theme |
| `ThemeControl.ToggleCommits` | assets/js/main.js:28-37 | a toggle writes the same new value to the attribute and to storage, so attribute = storage afterwards, the value is saved, and it differs from the previous theme |
| `ThemeControl.ToggleTwiceRestores` | assets/js/main.js:29-36 | two toggles from `light` or `dark` restore the original theme, which is then also the saved value |
| `ThemeControl.SystemChangeObeyedIffUnsaved` | assets/js/main.js:74-80 | a system change sets the theme to `dark`/`light` following `matches` when nothing is saved, leaves it alone when something is, and never touches storage |
| `ThemeControl.ApplyKeepsConsistent` | assets/js/main.js:28-80 | each event (toggle or system change) preserves the invariant "attribute = start-up resolution of current storage and signal, icon matches attribute" |
| `ThemeControl.RunKeepsConsistent` | assets/js/main.js:12-80 | every sequence of events preserves that invariant, so the attribute always equals the most recently committed value or, with nothing saved, the latest system signal |
| `ThemeControl.SavedIgnoresSystemChanges` | assets/js/main.js:74-80 | once a value is saved, any run of system changes leaves the theme and the saved value unchanged |
| `ThemeControl.SavedStaysSaved` | assets/js/main.js:35 | a saved value stays saved through every later event: no handler removes it |
| `ThemeControl.NoSystemChangeAfterToggle` | assets/js/main.js:35-80 | after any toggle, no later system change alters the theme |
| `ThemeControl.ThemeController.constructor` | assets/js/main.js:11-24 | the start-up handler leaves the fields equal to `Load` of the stored value, the signal and the icon, with the invariant established |
| `ThemeControl.ThemeController.UpdateThemeIcon` | assets/js/main.js:82-86 | the icon class becomes `IconFor(theme)` when the icon element exists, and stays absent otherwise |
| `ThemeControl.ThemeController.ToggleTheme` | assets/js/main.js:28-37 | the click (with its commit) performs `Apply(_, Toggle)`, keeps the invariant, and leaves attribute = storage, different from before |
| `ThemeControl.ThemeController.OnSystemChange` | assets/js/main.js:74-80 | the listener performs `Apply(_, SystemChange(matches))`, keeps the invariant, and leaves a saved theme untouched |
| `Typing.JsSubstring` | assets/js/main.js:128-132 | `substring(start, end)` yields `s[start..end]` for in-range bounds and a clamped prefix when `start <= 0`; never longer than `s` |
| `Typing.StepKeepsCursor` | assets/js/main.js:124-146 | with non-empty phrases, one step keeps `textIndex` below the number of phrases and `charIndex` between 0 and the phrase length, shows exactly `phrase[..charIndex]`, and moves `charIndex` by exactly one (up while typing, down while deleting) |
| `Typing.Run` | assets/js/main.js:124-148 | any number of chained steps from a valid cursor stays within the cursor invariant |
| `Typing.PhraseRound` | assets/js/main.js:127-146 | from the start of phrase i of length L: after k < L steps the cursor is typing at k, for L <= k < 2L it is deleting at 2L - k, and after 2L steps it is at the start of phrase (i + 1) mod the number of phrases |
| `Typing.PhraseDelays` | assets/js/main.js:127-148 | step k of a phrase schedules 100 while typing, 2000 when the phrase is complete, 50 while deleting and 500 when it is gone |
| `Typing.CyclicOrder` | assets/js/main.js:141-145 | after the steps of j whole phrases from the initial cursor, phrase j mod the number of phrases begins: the phrases are visited in cyclic order |
| `Typing.PhrasesWellFormed` | assets/js/main.js:112-117 | the page's four phrases are all non-empty, so every property above applies to them |
| `Typing.Typewriter.constructor` | assets/js/main.js:119-122 | the closure starts at phrase 0, character 0, typing, with speed 100 |
| `Typing.Typewriter.TypeText` | assets/js/main.js:124-149 | one call performs `TypeStep` on the fields, returns the delay it schedules (= `typingSpeed`), keeps the cursor invariant and shows `texts[textIndex][..charIndex]` |
| `ActiveNav.LastContaining` | assets/js/main.js:181-187 | the index returned holds `scrollY + 100` and no later section does; None exactly when no section holds it |
| `ActiveNav.ScanSelectsLast` | assets/js/main.js:178-192 | the loop's left-to-right effect equals: only the link of the last matching section is active (all cleared if it has no link), and with no match the flags are unchanged |
| `ActiveNav.ClearActive` | assets/js/main.js:188 | every navigation link's active flag is cleared |
| `ActiveNav.UpdateActiveNav` | assets/js/main.js:178-192 | the in-place loop leaves the flags equal to the scan; with a match exactly the last matching section's link is active, with none every flag is unchanged |
| `ActiveNav.OffsetExample` | assets/js/main.js:179-187 | with sections [0,100) and [100,300): `scrollY` 50 and 150 both activate the second link, -50 the first, 250 changes nothing |
| `ProjectFilter.AtMostOneShown` | assets/js/main.js:101-106 | with distinct category ids, no two categories are active after a click |
| `ProjectFilter.ShownIffTarget` | assets/js/main.js:94-105 | a category is active exactly when its id equals the button's `data-filter` value followed by `-content`; a missing attribute targets `null-content` |
| `ProjectFilter.DeactivateAll` | assets/js/main.js:97 | every button's active flag is cleared |
| `ProjectFilter.OnFilterClick` | assets/js/main.js:92-108 | afterwards exactly the clicked button is active, and the category flags equal `ShownCategories` of the ids and the clicked button's filter |

## Left out

- ThemeControl.Apply / ThemeControl.ThemeController.ToggleTheme: storage reads and writes are assumed to succeed. In the source, a `localStorage.getItem` that throws (storage blocked) stops the whole DOMContentLoaded handler before any attribute or listener is set. A `localStorage.setItem` that throws (for example a quota error) leaves the attribute already flipped but nothing saved, and skips `updateThemeIcon`. The icon is then stale and a later system change can override the click, which breaks `Consistent`. The model does not describe either failure.
- The swipe transition (the overlay elements, `requestAnimationFrame` and the 150 ms and 300 ms timers): a toggle is modelled as its commit happening once. The model therefore does not capture two clicks within 150 ms that both read the same attribute before either commits.
- The map tint that follows the theme attribute: that code is not in `assets/js/main.js` and is not part of this model.
- Storage written by other tabs or by hand: only this script's handlers change the `theme` entry in the model.
- The toggle listener exists only when the `#theme-toggle` button exists. `ToggleTheme` models a click, which presupposes the button.
- The 1000 ms before the first `typeText` call is the constant `Typing.StartDelay`. No member states it, because no step is involved. The timer chain itself (`setTimeout`) is modelled as repeated steps (`Typing.Run`).
- `Typing.Run`, `Typing.PhraseRound`, `Typing.CyclicOrder`: they assume non-empty phrases. With an empty phrase the source types past its end forever, and the model does not describe that behaviour. The page's phrases are non-empty (`Typing.PhrasesWellFormed`).
- `ActiveNav.UpdateActiveNav` models `scrollY`, `offsetTop` and `offsetHeight` as integers. Fractional `scrollY` values from high-density displays are not modelled.
- `ActiveNav.UpdateActiveNav` assumes that each section's link, when present, is one of the `.nav-menu a` items. The selector guarantees this.
- Smooth scrolling, navbar styling, the mobile menu, the intersection fade-ins, the card hover effects, the parallax, the stat counters (floating point), notifications, the contact form, the clipboard copy, the injected CSS and the hero video: these are presentation or browser APIs with no logic to state.
