# Portfolio front-end behaviour, modelled in Dafny

This is a model of the behaviour script of a static personal-portfolio site
(`assets/js/script.js`). The script wires up six independent features:

- a sidebar toggle;
- a testimonials modal with an overlay;
- a portfolio filter driven by a dropdown and by a row of filter buttons;
- gating of a form's submit button;
- single-page navigation between content sections;
- a dark/light theme saved in local storage.

Here each feature is a pure transition over plain data. An element is a
record holding its `active` class flag plus the text the script reads from it
(`innerText`, `innerHTML`, `data-category`, `data-page`). Collections of
elements are sequences indexed as `querySelectorAll` orders them.

Modules, one per feature plus one for text:

- `Text`: `toLowerCase`, modelled as ASCII lower-casing.
- `Toggles`: `elementToggleFunc` and the sidebar.
- `Modal`: `toggleModal` and the three controls that call it.
- `PortfolioFilter`: `filterFunc`, the dropdown, the option handler and the
  filter-button handler with its `lastClickedBtn`.
- `FormGate`: the `input` handler, with the browser's validity check taken
  as a boolean input.
- `PageNavigation`: the nav-link handler, written as a loop like the source.
- `Theme`: start-up and `toggleTheme`.

Points where the code's behaviour is narrower or odder than a plain reading
of the feature would suggest. The model follows the code in each case:

- Clicking a dropdown option toggles the dropdown's flag. It does not force
  it closed.
- The filter-button handler unmarks only the button `lastClickedBtn` refers
  to, and that reference starts at the first button. "Exactly one button is
  marked" holds after a click whenever, before it, at most that button was
  marked (`ClickButtonMarksExactlyOne`). From a markup that marks only the
  first button, every run of clicks keeps exactly the latest button marked
  (`SetupOnlyFirstMarked`, `ClickButtonsMarkLatest`). A marker the markup
  put on another button survives every click on a different button
  (`StaleMarkupMarkerSurvives`). The dropdown never updates the button row.
- The nav handler sets page `i` and link `i` together. Link `i` therefore
  follows page `i`'s name, not its own caption. Links with no page at their
  index are never touched. With fewer links than pages the handler throws a
  TypeError partway through, and the updates made before that are kept.
- Theme start-up accepts any non-empty stored string, not only "light" and
  "dark". A toggle from any value other than "dark" gives "dark".
- The modal has no separate open or close. An overlay click on a closed modal
  opens it.

## Model

| member | source | states |
|---|---|---|
| `Text.ToLower` | assets/js/script.js:129 | lower-casing keeps the length, maps each character on its own, and leaves no capital letter |
| `Text.ToLowerKeepsLower` | assets/js/script.js:129 | a string that is already lower case is unchanged by lower-casing |
| `Text.ToLowerIdempotent` | assets/js/script.js:129 | lower-casing twice equals lower-casing once |
| `Text.UpperNeverLowered` | assets/js/script.js:144 | a string with a capital letter is never equal to the lower-cased text of any label |
| `Toggles.Toggle` | assets/js/script.js:40-42 | toggling the active class always inverts the flag |
| `Toggles.ToggleTimes` | assets/js/script.js:40-42 | after n toggles the flag is the original when n is even and inverted when n is odd |
| `Toggles.ToggleTimesPeriodTwo` | assets/js/script.js:40-42 | n + 2 toggles give the same flag as n toggles |
| `Toggles.ClickSidebarBtn` | assets/js/script.js:80 | one click on the sidebar trigger inverts the sidebar's active flag |
| `Toggles.ClickSidebarBtnTimes` | assets/js/script.js:79-81 | n clicks on the sidebar trigger act as n toggles of its flag |
| `Toggles.SidebarTwoClicksRestore` | assets/js/script.js:80 | two clicks on the trigger return the sidebar to its previous state |
| `Toggles.SidebarClicksParity` | assets/js/script.js:80 | after n clicks the sidebar is open iff (it was open) iff (n is even) |
| `Modal.ToggleModal` | assets/js/script.js:85-88 | the container and the overlay are both inverted, so they are in lock-step after iff they were before |
| `Modal.Handle` | assets/js/script.js:90-102 | a testimonial click, a close-button click and an overlay click each invert both flags |
| `Modal.HandleAll` | assets/js/script.js:97-102 | after any sequence of events each flag has been toggled once per event |
| `Modal.LockStepPreserved` | assets/js/script.js:85-88 | if container and overlay start equal, they stay equal under every sequence of events |
| `Modal.EventKindIrrelevant` | assets/js/script.js:97-102 | two event sequences of the same length leave the modal in the same state, whichever controls fired |
| `Modal.OverlayClickReopensClosed` | assets/js/script.js:102 | an overlay click on a closed modal opens both the container and the overlay |
| `FormGate.OnInput` | assets/js/script.js:161-169 | after an input event the submit button is disabled iff the form is invalid |
| `FormGate.OnInputs` | assets/js/script.js:160-171 | after a run of input events the button reflects only the last validity reading; with no event it is unchanged |
| `FormGate.StartForgotten` | assets/js/script.js:164-168 | after at least one event the button state does not depend on the state before the events |
| `PortfolioFilter.Filter` | assets/js/script.js:107-121 | the item count and tags are kept; item i is shown iff the value is "all" or equals its tag exactly |
| `PortfolioFilter.FilterAllShowsEverything` | assets/js/script.js:109-112 | filtering with "all" shows every item and keeps their number |
| `PortfolioFilter.FilterOtherValue` | assets/js/script.js:113-117 | with any other value, item i is shown iff its tag equals the value, case included |
| `PortfolioFilter.FilterIgnoresFlags` | assets/js/script.js:109-119 | the result depends only on the value and the tags, not on the previous shown flags |
| `PortfolioFilter.LastFilterWins` | assets/js/script.js:107-121 | filtering by one value and then by another equals filtering by the second value alone |
| `PortfolioFilter.FilterIdempotent` | assets/js/script.js:107-121 | filtering twice with the same value equals filtering once |
| `PortfolioFilter.ClickSelect` | assets/js/script.js:123 | a click on the dropdown inverts its open flag and changes nothing else |
| `PortfolioFilter.ClickOption` | assets/js/script.js:127-132 | the label becomes the option's text as written; items are filtered by its lower-cased text; the open flag is inverted; the buttons and `lastClickedBtn` are untouched |
| `PortfolioFilter.Setup` | assets/js/script.js:138 | after set-up `lastClickedBtn` is the first button, which exists whenever there is a button, and every other part of the state is as the markup gave it |
| `PortfolioFilter.SetupOnlyFirstMarked` | assets/js/script.js:138 | if the markup marks no button but the first, set-up starts with at most `lastClickedBtn` marked |
| `PortfolioFilter.DropdownKeepsMarker` | assets/js/script.js:123-132 | a click on the dropdown or on one of its options keeps `lastClickedBtn` valid and the button markers as they were |
| `PortfolioFilter.ClickButtons` | assets/js/script.js:140-154 | after a run of button clicks `lastClickedBtn` is the last button clicked, and the button count is kept |
| `PortfolioFilter.ClickButtonsMarkLatest` | assets/js/script.js:138-151 | starting with at most `lastClickedBtn` marked, any non-empty run of button clicks leaves exactly the most recently clicked button marked |
| `PortfolioFilter.ClickButton` | assets/js/script.js:142-151 | the label becomes the button's text; items are filtered by its lower-cased text; the clicked button is marked; the previous `lastClickedBtn` is unmarked unless it is the clicked one; every other button is unchanged; `lastClickedBtn` becomes the clicked button |
| `PortfolioFilter.ClickButtonMarksExactlyOne` | assets/js/script.js:138-151 | if at most `lastClickedBtn` was marked before a click, exactly the clicked button is marked after it |
| `PortfolioFilter.StaleMarkupMarkerSurvives` | assets/js/script.js:138-150 | a button the markup marked that `lastClickedBtn` does not refer to stays marked when another button is clicked |
| `PortfolioFilter.CapitalisedTagOnlyShownByAll` | assets/js/script.js:111-117 | an item whose tag has a capital letter is hidden by every label whose lower-cased text is not "all" |
| `PageNavigation.ClickLink` | assets/js/script.js:177-191 | each page the loop reaches is shown iff its name equals the clicked link's lower-cased caption; link i ends up marked iff page i is shown; links with no page at their index and pages past a failure are untouched; the handler throws iff there are fewer links than pages; it scrolls iff a page below the link count matches; with no match and no throw, every page is hidden |
| `Theme.InitTheme` | assets/js/script.js:198-199 | the starting theme is the stored value if it is non-empty, otherwise "dark"; storage is not written |
| `Theme.ToggleTheme` | assets/js/script.js:202-208 | "dark" becomes "light" and anything else becomes "dark"; the stored value equals the new attribute |
| `Theme.ToggleThemeTimes` | assets/js/script.js:202-211 | with no click the state is unchanged; after one or more clicks storage equals the attribute, which is "dark" or "light" |
| `Theme.TwoTogglesRestore` | assets/js/script.js:204 | from "dark" or "light", two toggles bring back the attribute, and the whole state when it was already saved |
| `Theme.ThemeAlternates` | assets/js/script.js:202-211 | after n >= 1 clicks, storage equals the attribute and the attribute alternates strictly, with odd clicks giving "light" from "dark" and "dark" from anything else |
| `Theme.ReloadRestoresTheme` | assets/js/script.js:198-207 | after at least one click, a reload that reads the stored value restores the same theme |
| `Theme.FreshLoadIsDark` | assets/js/script.js:198 | with nothing stored the page starts "dark", and the first click gives "light", which is also stored |

## Left out

- Element lookup and event registration (assets/js/script.js:45-76, 214-225) are host plumbing. Elements are indexed records here. A missing element is not modelled. Depending on the element, it crashes start-up or the first handler that touches it.
- The copy of a testimonial's avatar `src`/`alt`, title and text into the modal (assets/js/script.js:92-96) is a plain markup copy. `Modal.Handle` models only the toggle that follows it.
- `checkValidity()` (assets/js/script.js:164) is the browser's constraint validation. It is a boolean input to `FormGate.OnInput`. The `disabled` attribute is a boolean.
- `localStorage` is a single optional string in `Theme.ThemeState`. Setting `data-theme` is the `attribute` field. `window.scrollTo(0, 0)` (assets/js/script.js:184) is reported only as the `scrolled` result of `PageNavigation.ClickLink`.
- Theme.ToggleTheme: storage reads and writes are assumed to succeed. In the browser `getItem` (assets/js/script.js:198) can throw, for example when site storage is blocked. Then `data-theme` is never set and the theme button gets no listener. `setItem` (assets/js/script.js:207) can throw after the attribute was already changed at line 206. That leaves the attribute toggled but storage holding the old value, so `Persisted` does not hold. Neither failure is modelled, and `Theme.InitTheme` shares the same assumption.
- Text.ToLower: models `toLowerCase` as ASCII lower-casing only. Non-ASCII case mappings are not modelled. `innerText` and `innerHTML` are taken as given strings, without whitespace or markup handling.
- The ordering of DOM mutations inside one handler is not observable by other code in a single-threaded page. Only the end state of each handler is modelled. The one exception is the partial state after the navigation handler throws.
