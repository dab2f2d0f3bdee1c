# Theme toggle and sidenotes of a static site, in Dafny

The site ships two browser scripts. `dark-mode.js` keeps a theme preference
(`light`, `dark` or `auto`) in `localStorage` under `theme-preference`, cycles
it from a toggle button, exposes `themeManager.get`/`set`, follows the
operating system's colour-scheme preference while on `auto`, adopts values
written by other tabs, and puts a `dark-mode` class on the document root
exactly when the effective theme is dark. `sidenotes.js` turns the
`.sidenote-mark` markers of the article into numbered references and notes,
places the notes in the right margin on viewports at least 1400 px wide
(pushed down past the last note above them, with a 20 px gap), and on narrower
viewports shows them inline, one at a time, through an `active` class.

This project models the decidable part of both scripts as pure functions over
immutable values and proves what they promise:

- `wrappers.dfy` — `Option`, for values the browser reports as `null`.
- `dark_mode.dfy` — module `DarkMode`: the theme `Light | Dark | Auto |
  Other(name)`, a `Preference` subset type whose `Other` never spells a known
  name (so comparing themes is comparing the script's strings), the page state
  (preference, stored value, dark flag) and every transition.
- `dark_mode_props.dfy` — module `DarkModeProps`: lemmas across transitions.
- `sidenotes.js` is split in three: `sidenotes.dfy` (module `Sidenotes`:
  breakpoint, markers, numbering, `addSidenote`, mobile toggle, print
  handlers), `sidenote_layout.dfy` (module `SidenoteLayout`: desktop
  placement and repositioning) and `sidenotes_props.dfy` (module
  `SidenotesProps`: lemmas).

Browser reads become parameters: the `(prefers-color-scheme: dark)` answer is
`systemDark`, the viewport width and height, the scroll offset, a reference's
`getBoundingClientRect().top`, a parent's `offsetTop` and each note's
`offsetTop`/`offsetHeight` are taken as integers (the browser reports some of
them as fractions; see "Left out"), and storage is an `Option<string>`.

In these places the scripts behave differently from what their comments suggest,
and the model follows the code:

- Numbers are not unique for the page's lifetime: processed markers are
  replaced, so `addSidenote` processes only the new marker and numbers it 1
  again (`SidenotesProps.AddRestartsNumbering`).
- The collision rule does not look at the immediately preceding note: it takes
  every other note whose `offsetTop` is above the target, in document order
  (later notes included), and clears only the last of them. Against a stack
  the placed note clears every note above its target
  (`SidenoteLayout.StackedClearsAllAbove`); notes starting at or below the
  target are not considered and may still be overlapped
  (`SidenoteLayout.StackedMayStillOverlap`), and against unstacked notes an
  earlier, taller note can be overlapped too
  (`SidenoteLayout.UnstackedMayOverlap`). A whole pass of
  `repositionSidenotes` with references in increasing order can leave
  overlapping notes (`SidenoteLayout.RepositionMayOverlap`), and a second pass
  can move notes the first one placed
  (`SidenoteLayout.RepositionNotIdempotent`).
- Stored and cross-tab values are not validated: a `storage` event installs any
  non-empty string, and cycling from such a value goes to `light`.

The script compares the other notes' `offsetTop` (relative to their offset
parent) with a document-relative target and then subtracts the parent's
`offsetTop` when writing `style.top`. The model keeps that arithmetic as
written; whether the two coordinates share an origin depends on the
stylesheet, which is not part of this model.

## Model

| member | source | states |
|---|---|---|
| `DarkMode.Parse` | dark-mode.js:17-21 | every string is read as a preference whose name is that string; it is `Other` exactly when the string is not one of the three known names |
| `DarkModeProps.NameParseRoundTrip` | dark-mode.js:17-24 | names and preferences correspond one to one in both directions |
| `DarkMode.SystemPreference` | dark-mode.js:33-35 | the system preference is dark exactly when the media query matches, and light exactly when it does not |
| `DarkMode.Effective` | dark-mode.js:33-41 | `auto` resolves to exactly one of light or dark, dark exactly when the system prefers dark; any other preference is its own effective theme |
| `DarkMode.Render` | dark-mode.js:40-47 | applying a theme changes only the flag, which is on iff the preference is dark, or auto under a dark system preference |
| `DarkModeProps.DarkFlagExactlyWhenDark` | dark-mode.js:41-47 | the flag is on iff the effective theme is dark; an unrecognised value clears it; under auto it equals the system preference |
| `DarkMode.Load` | dark-mode.js:24 | the initial preference is `auto` when nothing or the empty string is stored, otherwise the stored string as it is |
| `DarkMode.Init` | dark-mode.js:81-83 | start-up holds the loaded preference and the stored value, with the flag agreeing with them |
| `DarkModeProps.FreshPageFollowsSystem` | dark-mode.js:24 | with nothing stored the page is on auto and dark exactly when the system is |
| `DarkMode.IndexOf` | dark-mode.js:62 | the position of the first equal element, or -1 exactly when there is none |
| `DarkMode.Next` | dark-mode.js:61-65 | light goes to dark, dark to auto, auto to light, and any unrecognised value to light |
| `DarkMode.Cycle` | dark-mode.js:60-67 | the preference advances, the new name is persisted, the result is always a known theme and the flag agrees with it |
| `DarkModeProps.CycleThrice` | dark-mode.js:61-65 | three cycles return a known theme to itself with its name stored; from an unrecognised value they end on auto |
| `DarkMode.Get` | dark-mode.js:147 | get answers the preference the script holds |
| `DarkModeProps.GetIgnoresStorage` | dark-mode.js:147 | get does not re-read storage, and a system-preference change does not alter what it answers |
| `DarkMode.Set` | dark-mode.js:148-154 | a known name is adopted, persisted and applied; any other value leaves the page untouched |
| `DarkModeProps.SetThenGet` | dark-mode.js:147-151 | after a valid set, get returns that theme and storage holds its name |
| `DarkModeProps.SetInvalidIgnored` | dark-mode.js:149-153 | an invalid set changes neither the preference nor storage |
| `DarkMode.OnSystemChange` | dark-mode.js:103-106 | a system-preference change leaves a non-auto page unchanged and makes an auto page's flag follow the new preference |
| `DarkMode.OnStorage` | dark-mode.js:118-123 | a non-empty value under the theme key replaces the preference unvalidated and is applied; any other event changes nothing |
| `DarkModeProps.StorageAdoptsUnknown` | dark-mode.js:119-121 | a storage event installs a value that set would refuse |
| `DarkModeProps.ConsistencyPreserved` | dark-mode.js:99-123 | every transition keeps the flag in agreement with the preference, a system change under the new system preference; storage writes are taken to succeed |
| `Sidenotes.Payload` | sidenotes.js:126 | a note's text is a non-empty `data-content`, otherwise the marker's inner markup |
| `Sidenotes.NumberFrom` | sidenotes.js:124-126 | the marker at scan index k gets number base + k + 1 and its own payload |
| `Sidenotes.Process` | sidenotes.js:117-133 | no article: nothing; otherwise every marker is consumed and the i-th one appends note i + 1 with its payload after the existing notes |
| `SidenotesProps.ProcessNumbersOneToK` | sidenotes.js:124-130 | a first processing of k markers numbers them exactly 1..k in marker order, each with its own marker's payload |
| `SidenotesProps.ProcessNumbersDistinct` | sidenotes.js:124-125 | no number occurs twice among the notes of one processing |
| `SidenotesProps.ProcessIdempotent` | sidenotes.js:118-124 | processing an already processed page changes nothing, for payloads that carry no marker markup |
| `Sidenotes.AddSidenote` | sidenotes.js:217-228 | the new marker's note carries the given content and is numbered by its position among the unprocessed markers; earlier notes are kept |
| `SidenotesProps.AddRestartsNumbering` | sidenotes.js:217-228 | on a processed page the added note is numbered 1, so two notes can carry number 1 |
| `Sidenotes.ToggleMobile` | sidenotes.js:94-111 | every other note is closed, the toggled one flips, aria-expanded is "was closed", and only an opening note below the fold scrolls |
| `SidenotesProps.ToggleLeavesAtMostOneOpen` | sidenotes.js:95-106 | after a toggle at most one note is open; closing the open one leaves none |
| `SidenotesProps.SecondOpenClosesFirst` | sidenotes.js:98-103 | opening a second note closes the first |
| `SidenotesProps.MobileBoundary` | sidenotes.js:16-24 | a 1399 px viewport is narrow, a 1400 px one wide, and narrowing a narrow viewport keeps it narrow |
| `Sidenotes.Activate` | sidenotes.js:147-156 | activation never moves or resizes a note; on desktop every flag stays as it was; on mobile every other note is closed and the activated one flips |
| `Sidenotes.BeforePrint` | sidenotes.js:201-205 | every note becomes active and nothing else changes |
| `Sidenotes.AfterPrint` | sidenotes.js:207-213 | on mobile every note becomes inactive; on desktop nothing changes |
| `SidenotesProps.PrintRoundTrip` | sidenotes.js:201-213 | a print ends with every note hidden on mobile, whatever was open before, and every note shown on desktop |
| `SidenoteLayout.Others` | sidenotes.js:40-41 | the candidate notes are all notes but the one being placed, in document order |
| `SidenoteLayout.Above` | sidenotes.js:40-41 | the filtered notes are other notes whose top lies strictly above the target, and every such note is kept |
| `SidenoteLayout.AboveKeepsOrder` | sidenotes.js:40-41 | filtering a concatenation gives the concatenation of the filtered parts, so the filter keeps document order |
| `SidenoteLayout.AboveSingle` | sidenotes.js:40-41 | a single note is kept exactly when its top is strictly above the target |
| `SidenoteLayout.TargetTop` | sidenotes.js:37 | the collision-free target lies exactly 20 px above the reference's document position |
| `SidenoteLayout.Clamp` | sidenotes.js:43-50 | the push-down never raises the target; with no note above it keeps it; otherwise it ends at or below the last such note's clearance and is either the target or that clearance |
| `SidenoteLayout.LastAbove` | sidenotes.js:43-44 | the last note in document order above the target, or none when every note is at or below it |
| `SidenoteLayout.AboveEndsAtLastAbove` | sidenotes.js:40-44 | the filtered list is empty iff no note is above the target, and its last element is that last note |
| `SidenoteLayout.FinalTop` | sidenotes.js:37-50 | the final top is never above ref top + scroll - 20; with no note above it equals that target; otherwise it is at least the last such note's top + height + 20 and is one of the two |
| `SidenoteLayout.Placed` | sidenotes.js:52 | the placed note keeps its height and flag, and its top plus its parent's offset is the final top, so never above the target |
| `SidenoteLayout.Position` | sidenotes.js:29-52 | on mobile nothing moves; otherwise only the placed note moves, to its final top minus the parent's offset |
| `SidenoteLayout.RepositionSteps` | sidenotes.js:175-182 | after the first n steps of a pass, notes past n are untouched, heights and flags are kept, and each placed note, with its own parent's offset added, is at or below its target |
| `SidenoteLayout.StepMovesOnlyItsNote` | sidenotes.js:178-181 | step n moves only note n - 1, and only when that note exists, to where `positionSidenote` puts it |
| `SidenoteLayout.RepositionPlacesEach` | sidenotes.js:178-182 | after any later steps, note j stays exactly where step j placed it against the other notes as the earlier steps left them |
| `SidenoteLayout.Reposition` | sidenotes.js:172-182 | on mobile nothing moves; note i is placed against reference i and its own parent's offset only when it exists; notes without a reference stay; heights and flags are kept |
| `SidenoteLayout.RepositionNotIdempotent` | sidenotes.js:172-182 | for two notes with references at 120 and 330 a second pass moves the first note from 570 to 100 |
| `SidenoteLayout.RepositionMayOverlap` | sidenotes.js:172-182 | with references in increasing order one pass can leave the second note covering the first |
| `SidenoteLayout.StackedClearsAllAbove` | sidenotes.js:40-50 | against already stacked notes the placed note clears every note above its target |
| `SidenoteLayout.StackedMayStillOverlap` | sidenotes.js:40-50 | a note starting at or below the target is ignored, so even against a stack the placed note can overlap it |
| `SidenoteLayout.UnstackedMayOverlap` | sidenotes.js:40-50 | against unstacked notes the placed note can end inside an earlier, taller note |

## Left out

- Element construction and attribute text (`createSidenote`, `createSidenoteRef`, the toggle's title and `aria-label`): DOM building with no decisions in it.
- Event-listener registration, `DOMContentLoaded` start-up and the old `addListener` fallback, which runs the same handler as `addEventListener`.
- Timing: the 250 ms resize debounce, the `requestAnimationFrame` before the first placement, the 1 s opacity pulse and the 150 ms button pulse. Each placement is modelled as the function it eventually runs.
- `scrollIntoView` itself: only the decision whether to scroll is modelled.
- Where a mobile note is inserted (after the enclosing paragraph) and where a desktop note is appended: the model keeps the notes in creation order. On a narrow viewport a second marker in the same paragraph has its note inserted before the first one's, so document order then differs from creation order; `repositionSidenotes` pairs references and notes by document order, and the model's `Reposition` pairs them by list position, which is document order only when the caller lists the notes that way.
- Fractional layout values: `getBoundingClientRect().top` and `pageYOffset` can be fractions and `offsetTop`/`offsetHeight` are rounded to whole pixels; the model takes all of them as integers.
- `markNoInvert`: it only tags elements with an attribute.
- The other tab's write to shared storage that causes a `storage` event: the handler does not write storage, so the model leaves the stored value as it was.
- SidenoteLayout.Position: assumes that a note's `offsetTop` read back later equals the `style.top` written (the browser rounds it to whole pixels, and the written value can be fractional), which holds for an absolutely positioned note without vertical margin whose offset parent is its parent; the stylesheet is not part of this model.
- DarkMode.Init: assumes the storage read succeeds; when site storage is blocked `localStorage.getItem` throws while the script loads, and the script then stops before calling `init` (so no listener is registered and the flag is never applied) and before defining `markNoInvert` and `themeManager`, an outcome the model does not have.
- DarkMode.Cycle: assumes the storage write succeeds; the script assigns the new preference before `localStorage.setItem`, so when the write throws (quota exceeded) `applyTheme` is skipped and the flag keeps showing the old theme, a state in which flag and preference disagree.
- DarkMode.Set: assumes the storage write succeeds, with the same consequence as for `DarkMode.Cycle` when it throws.
- Sidenotes.Process: assumes the markers are disjoint, none nested inside another. `querySelectorAll` also returns a marker inside another marker; on a narrow viewport that inner marker's reference sits in the already detached outer marker, the enclosing node has no parent, `insertBefore` throws, and the remaining markers are not processed (during start-up the resize and print listeners are then never registered). The model consumes every marker.
- SidenotesProps.ProcessIdempotent: assumes payload markup is opaque text. The note's content is parsed as HTML, so a payload that itself contains a `.sidenote-mark` puts a live marker into the article, and the next processing turns it into a further note numbered 1; in the model a processed article has no markers left, so processing twice changes nothing only for payloads without marker markup.
- DarkModeProps.ConsistencyPreserved: holds only under the storage assumptions of `DarkMode.Cycle` and `DarkMode.Set`; a throwing write leaves the flag disagreeing with the preference.
- `themeManager.set` with a non-string argument: the model takes strings only; such an argument is never one of the three names, so the source ignores it just as the model ignores an unknown string.
- Sidenotes.AddSidenote: assumes the element it is given lies inside the article; for an element outside it the source's processing never finds the new marker, which the model does not represent.
