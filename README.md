# Portfolio script: timeline explorer, theme, navigation menu, email copy

This project models the client-side behaviour of a personal portfolio page
(`script.js`) in Dafny and proves properties of the model.

The core is the **timeline explorer**. The page has a list of timeline
items. Each item has a `data-type` and holds one button carrying
`data-type`, `data-title`, `data-period` and `data-description`. A detail
card shows one button's data. The script keeps a *pinned* button, which a
click or an arrow key sets and a filter change may replace. Focusing a
button only previews it in the card. A row of filter buttons hides every
item whose type differs from the chosen filter.

Around it are three small pieces:

- the colour theme: the saved preference, the system preference and the toggle;
- the mobile navigation menu: an open/closed flag, its `aria-expanded` attribute and its icon;
- the address the "copy email" button takes from the email link.

The honeypot test of the contact form is also modelled.

Modules, one per file:

- `Js` (`js.dfy`): the JavaScript value semantics the script relies on. It covers absent attributes as `Option`, and `v || d` on strings, where both absent and `""` give way to `d`. It also covers `String.prototype.trim` with the ECMAScript whitespace set, `startsWith`, `replace` with a string pattern and a `$`-free replacement (first occurrence only), `indexOf`, `Math.min` and `Math.max`.
- `Timeline` (`timeline.dfy`): the timeline explorer as a state machine over values. One function per handler: `SetDetail`, `ApplyFilter`, `Focus`, `Click`, `KeyDown`, `FilterClick`, and `Init` for start-up. The lemmas state the explorer's properties.
- `TimelineWidget` (`timeline_widget.dfy`): the same block in the script's own imperative form. It is a class whose fields are the classes and texts the handlers rewrite, with `while` loops for the script's `forEach` loops. Each method is proved to have exactly the effect of the matching `Timeline` function.
- `Theme` (`theme.dfy`), `Nav` (`nav.dfy`), `CopyEmail` (`copy_email.dfy`), `ContactForm` (`contact_form.dfy`).

Inputs the browser supplies are parameters:

- the value saved under `"theme"` in local storage;
- whether `prefers-color-scheme: dark` matches;
- the markup's initial classes, attributes and card texts;
- the target of a document click;
- the key of a key press.

Modelling assumptions:

- Every timeline button sits in exactly one `.timeline-item[data-type]`, and every such item holds exactly one button with `data-period`. So button `i` is the button of item `i`, and "the item of the pinned button" is item `pinned`. The optional chain in the keydown handler, which would count a button outside any item as visible, therefore never applies.
- The explorer exists only with at least one button (the guard of the block), so `pinnedButton` is always defined.
- In `KeyDown`, `nextButton.focus()` fires the target's focus handler only when focus actually moves, that is, when the target differs from the focused button. The lemma `KeyDownPinsTarget` shows that this extra `setDetail` changes nothing.

Two points on what the code does and does not do:

- When a filter matches no item, `applyFilter` returns early (script.js:197-199). The card and the active button keep showing the previous button, though its item is now hidden. The pin is unchanged. Nothing is "deselected".
- The code has no search term, no tag universe and no asynchronous collection load for the timeline. The filter is a single exact match on the item's type, or `"all"`.

## Model

| member | source | states |
|---|---|---|
| `Js.Or` | script.js:173-176 | the logical-or fallback on a possibly absent string is `v` when present and non-empty, and `d` when absent or empty |
| `Js.StartsWith` | script.js:297 | `startsWith` holds when the pattern is a prefix; its use is stated by `CopyEmail.CopiedEmail` |
| `Js.ReplaceFirst` | script.js:298 | `replace` with a string pattern; `Js.ReplaceFirstAt` states that it substitutes exactly the first occurrence |
| `Js.Min` | script.js:238 | `Math.min` is no greater than either argument and equals one of them |
| `Js.Max` | script.js:239 | `Math.max` is no smaller than either argument and equals one of them |
| `Js.Trim` | script.js:299 | `trim()` yields an infix of the input that neither starts nor ends with whitespace. Everything cut off on either side is whitespace. It is empty exactly when the input is all whitespace |
| `Js.TrimIdempotent` | script.js:299 | trimming a trimmed string changes nothing |
| `Js.ReplaceFirstAt` | script.js:298 | `replace` with a string pattern substitutes the first occurrence and keeps the text before and after it |
| `Js.IndexOf` | script.js:231 | `indexOf` is -1 exactly when the element is absent. Otherwise it is the first index holding the element |
| `Theme.PreferredTheme` | script.js:43-52 | the result is always "light" or "dark". A saved "light"/"dark" wins. Otherwise the result is "dark" exactly when the system prefers dark |
| `Theme.NextTheme` | script.js:69-70 | the toggle's next theme is always valid. It is "light" exactly when the current attribute is "dark", so a missing or empty attribute goes to "dark" |
| `Theme.ToggleTwice` | script.js:69-72 | toggling twice from a valid theme returns to it |
| `Theme.SavedToggleWinsOnReload` | script.js:44-72 | the theme the toggle saves is the one `getPreferredTheme` picks next time, whatever the system prefers |
| `Theme.ThemeState.constructor` | script.js:65 | on start-up the page gets the preferred theme and nothing is saved |
| `Theme.ThemeState.Toggle` | script.js:68-73 | a toggle click applies the next theme and saves it. From a valid theme it always changes the theme |
| `Nav.NavMenu.CloseNav` | script.js:82-86 | closing removes "open", sets `aria-expanded` to false and shows the menu icon |
| `Nav.NavMenu.ToggleClick` | script.js:88-93 | a toggle click flips the attribute and the class and shows the icon of the new state. It keeps class, attribute and icon consistent |
| `Nav.NavMenu.LinkClick` | script.js:95-99 | a click on a menu link closes the menu |
| `Nav.NavMenu.DocumentClick` | script.js:101-105 | a document click closes an open menu unless it landed inside the links or the toggle. Otherwise nothing changes |
| `Nav.NavMenu.DocumentKeyDown` | script.js:107-109 | Escape closes the menu and every other key leaves it as it was |
| `CopyEmail.CopiedEmail` | script.js:296-299 | for a `mailto:` href the copied text is the href without the scheme. Otherwise it is the trimmed link text |
| `CopyEmail.MailtoRoundTrip` | script.js:296-298 | `mailto:` followed by any address copies exactly that address, even when the address itself contains `mailto:` |
| `CopyEmail.FallbackIsTrimmed` | script.js:299 | without a `mailto:` href the copied text is already trimmed. It is empty exactly when the link text is all whitespace |
| `ContactForm.SubmissionBlocked` | script.js:118 | the honeypot test; `ContactForm.BlockedIffNonBlank` states when it holds |
| `ContactForm.BlockedIffNonBlank` | script.js:118 | a submission is blocked exactly when the honeypot field is present and holds a non-whitespace character |
| `Timeline.SetDetail` | script.js:169-176 | `setDetail(b)` leaves `b` the only active button with the card showing it, and changes no item class, pin or filter button |
| `Timeline.ItemType` | script.js:188 | an item's type is its `data-type`, or "" when absent |
| `Timeline.Matches` | script.js:187-189 | the visibility test: filter "all" or equal to the item's type; `Timeline.ApplyFilterVisibility` states it for the applied classes |
| `Timeline.HiddenFor` | script.js:187-190 | one "is-hidden" flag per item; `Timeline.ApplyFilterVisibility` states which are set |
| `Timeline.ApplyFilter` | script.js:186-212 | `applyFilter` sets the items' "is-hidden" classes from the filter and leaves items and filter buttons alone; the `ApplyFilter*` lemmas state what happens to pin and card |
| `Timeline.Focus` | script.js:217 | the focus handler shows the button and keeps the pin |
| `Timeline.Click` | script.js:218-221 | the click handler pins the button and shows it |
| `Timeline.KeyDown` | script.js:223-244 | the keydown handler changes neither item classes nor filter buttons; the `KeyDown*` and `Arrow*` lemmas state what it pins |
| `Timeline.FilterClick` | script.js:247-256 | a filter click leaves items and filter values alone; `Timeline.FilterClickPressesOne` states the pressed buttons and visibility |
| `Timeline.Init` | script.js:146-274 | start-up leaves items and filter values alone; `Timeline.InitPinsFirst` states the pin, card and visibility |
| `Timeline.DetailOf` | script.js:173-176 | the card's type is never empty. It is the button's non-empty type, else "Timeline". Title, period and description are the button's values, or "" when absent |
| `Timeline.FilterValue` | script.js:249 | a filter button applies its non-empty `data-filter`, or "all" when that is missing or empty |
| `Timeline.VisibleIndices` | script.js:228-230 | the visible-button list holds exactly the buttons whose item is not hidden, each once, in document order |
| `Timeline.FirstVisible` | script.js:193-195 | `find` gives the first item not hidden. It gives nothing exactly when every item is hidden |
| `Timeline.Step` | script.js:237-239 | an arrow moves one place down or up in the visible list, stays put at either end and never leaves the list |
| `Timeline.VisibleNeighbours` | script.js:228-230 | every item between two neighbours of the visible list, and before the first and after the last, is hidden |
| `Timeline.SetDetailShows` | script.js:169-176 | after `setDetail(b)`, `b` is the only active button and the card shows b's data. Items, pin and filter buttons are untouched |
| `Timeline.SetDetailIdempotent` | script.js:240-243 | showing the same button twice equals showing it once |
| `Timeline.ApplyFilterVisibility` | script.js:187-191 | after `applyFilter(f)` an item is visible exactly when `f` is "all" or equals the item's type, with a missing type read as "" |
| `Timeline.ApplyFilterKeepsPin` | script.js:201-208 | if the pinned button's item matches the filter, the pin is unchanged and shown |
| `Timeline.ApplyFilterFallsBack` | script.js:210-211 | if the pinned item does not match but some item does, the pin becomes the first matching item in document order, and that item is shown |
| `Timeline.ApplyFilterNoMatch` | script.js:197-199 | if no item matches, every item is hidden and pin, active buttons and card are exactly as before |
| `Timeline.ApplyFilterPinVisible` | script.js:186-212 | after any filter the pin is visible and shown unless every item is hidden. One button stays active, matching the card |
| `Timeline.FocusPreviews` | script.js:217 | focusing a button shows it and leaves the pin, visibility, items and filter buttons unchanged |
| `Timeline.ClickPins` | script.js:218-221 | clicking a button pins it and shows it, leaving visibility, items and filter buttons unchanged |
| `Timeline.KeyDownIgnored` | script.js:224-234 | keys other than ArrowUp/ArrowDown, and arrows on a button whose item is hidden, change nothing |
| `Timeline.KeyDownPinsTarget` | script.js:236-243 | an arrow key pins and shows the target. The focus event it triggers adds nothing |
| `Timeline.ArrowDownMovesToNextVisible` | script.js:237-243 | ArrowDown pins and shows the next visible button after the current one, skipping hidden ones. It stays put when none follows |
| `Timeline.ArrowUpMovesToPreviousVisible` | script.js:237-243 | ArrowUp pins and shows the previous visible button, skipping hidden ones. It stays put when none precedes |
| `Timeline.FilterClickPressesOne` | script.js:247-256 | a filter click leaves exactly that filter button active and pressed and every other one inactive and unpressed. Then it applies its filter |
| `Timeline.InitPinsFirst` | script.js:146-274 | start-up shows all items and pins and shows the first button, whatever the markup said |
| `Timeline.HandlersKeepCoherent` | script.js:216-244 | focus, click and keydown keep exactly one active button, with the card showing it, on every page, with or without filter buttons |
| `Timeline.FilterClickKeepsCoherent` | script.js:247-256 | a filter click keeps exactly one active button, with the card showing it |
| `TimelineWidget.Explorer.constructor` | script.js:146-274 | start-up (pin the first button, show it, `applyFilter("all")`) yields exactly `Timeline.Init` of the page |
| `TimelineWidget.Explorer.SetDetail` | script.js:169-184 | the `forEach` that clears "is-active", then the card update, yield exactly `Timeline.SetDetail` |
| `TimelineWidget.Explorer.VisibleButtons` | script.js:228-230 | the filtering loop returns exactly `Timeline.VisibleIndices` of the current classes |
| `TimelineWidget.Explorer.FirstVisibleItem` | script.js:193-195 | the search loop returns exactly `Timeline.FirstVisible` of the current classes |
| `TimelineWidget.Explorer.ApplyFilter` | script.js:186-212 | the class-toggling loop, the search and the three exits yield exactly `Timeline.ApplyFilter` |
| `TimelineWidget.Explorer.Focus` | script.js:217 | the focus handler yields exactly `Timeline.Focus` |
| `TimelineWidget.Explorer.Click` | script.js:218-221 | the click handler yields exactly `Timeline.Click` |
| `TimelineWidget.Explorer.KeyDown` | script.js:223-244 | the keydown handler yields exactly `Timeline.KeyDown` |
| `TimelineWidget.Explorer.FilterClick` | script.js:247-256 | the loop over the filter buttons, then `applyFilter`, yield exactly `Timeline.FilterClick` |

## Left out

- Scroll-spy highlighting of the navigation anchors (script.js:20-40) and revealing the skill meters (script.js:276-292). Both are driven by `IntersectionObserver` viewport callbacks, with no logic beyond marking elements.
- The contact-form submission (script.js:112-144): an asynchronous `fetch` POST and the status texts around it. Only the honeypot test is modelled.
- The clipboard write and the timer that clears the "Copied" status (script.js:300-305): an asynchronous browser API and a timeout.
- `placeDetailCard` and the breakpoint listener (script.js:153-167, 260-271). They move the detail card next to the active item on narrow viewports and back to its host otherwise. This is DOM re-parenting driven by a media query, and no handler reads the card's position.
- The "is-updated" animation restarted through `requestAnimationFrame` (script.js:180-183), and the footer year (script.js:77-79), which reads the clock.
- `event.preventDefault()` in the keydown handler: it only stops the page from scrolling.
- Js.ReplaceFirst: does not expand the `$$`, `$&`, `` $` `` and `$'` patterns JavaScript interprets in a replacement string, so it is JavaScript's `replace` only for a replacement without `$`; the one call, script.js:298, passes the empty string.
- Theme.ThemeState.Toggle: does not model the toggle's icon and `aria-label` texts (script.js:56-62). They are a function of the applied theme only.
- Nav.NavMenu.ToggleClick: models `aria-expanded` only as "reads exactly `true`" and the icon as one of two values, not as strings. Every handler writes the attribute as "true" or "false".
- Project-grid search and tag filtering, a tag universe and asynchronous loading of a collection: script.js has no such code.
