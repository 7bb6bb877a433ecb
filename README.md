# Chip autocomplete: a verified model of the widget's state logic

The repository implements one React widget, `ChipAutocomplete`. The user types
into an input and sees a menu of matching people (the *suggestions*,
`filteredRes`) taken from a fixed list (`data`). Clicking a suggestion turns it
into a *chip*. A chip can be removed by clicking its close icon, or by pressing
Backspace twice on an empty input. The first press highlights the last chip
and the second press removes it. Clicking elsewhere closes the menu.

This project models that state logic apart from React and the DOM. It then
proves what the handlers promise, one at a time and together.

- `js_strings.dfy` (module `JsStrings`) covers the three JavaScript string
  operations the filter relies on: `trim`, `toLowerCase` and `indexOf`.
  Each is given with a reference definition (`IsBlank`, `Contains`) and the
  link between them.
- `candidates.dfy` (module `Candidates`) holds the `Data` and `ChipType`
  records. It has one order-keeping `Filter`, which covers the three filters
  the component uses. It also has `find` and `findIndex`, and the two
  `forEach` loops of the filters as methods. `CollectChipIds` is proved
  against `ChipIds` and `CollectFiltered` against `Filter`.
- `transitions.dfy` (module `ChipTransitions`) is the component as a state
  machine over the value `Widget(chips, filteredRes, value, showMenu)`. It has
  one function per handler and the layout effect. `Dispatch` runs one browser
  event: the handler, then the layout effect if the handler set `chips` or
  changed `showMenu`. The lemmas here state the invariants and the multi-step
  properties.
- `component.dfy` (module `ChipAutocompleteComponent`) holds the class
  `ChipAutocomplete`. Its fields are `chips`, `showMenu`, `filteredRes` and
  `value`; `data` is a constant. It has one method per handler, which assigns
  the fields as the source does. Each method's postcondition says its new
  state is the matching `ChipTransitions` function applied to the old state.
  Each method also keeps the partition invariant `Valid()`, under a condition
  in two cases. `HandleOnSelect` keeps it only for an id among the
  suggestions; selecting a `data` id that is already a chip would add it a
  second time. `Dispatch` keeps it for every event the rendered widget can
  produce (`Feasible`).

The values the model works on follow the source's types:

- `Candidates.Data` is the candidate record `{ id, name, email, avatar }`
  (`ChipAutocomplete.tsx:18-23`). `Candidates.ChipType` is that record plus
  `highlight` (`ChipAutocomplete.tsx:25-27`).
- `ChipTransitions.Widget` is the component's four `useState` cells: `chips`,
  `filteredRes`, `value` and `showMenu` (`ChipAutocomplete.tsx:36-39`).
  `data` is a separate, fixed argument, since it is a prop the component
  never changes.
- `ChipTransitions.Event` has one constructor per event binding. These are
  the input's `onChange`, `onKeyUp` and `onFocus` (`ChipAutocomplete.tsx:209-211`),
  a menu item's `onSelect` (`ChipAutocomplete.tsx:217`), a chip's delete
  (`ChipAutocomplete.tsx:201`) and the document click listener
  (`ChipAutocomplete.tsx:186`).
- `Candidates.Criterion` names the three filter callbacks
  (`ChipAutocomplete.tsx:87`, `:104`, `:115`), and `Candidates.Keeps` is
  their body.

Four behaviours of the code shape the model:

- The filter lowers the candidate's *name* but compares it with the query *as
  typed* (`ChipAutocomplete.tsx:87`). A query holding an upper-case letter
  therefore matches nothing (`UpperCaseQueryMatchesNothing`).
- `handleOnSelect` looks the id up in `data` only (`ChipAutocomplete.tsx:112`).
  It does not check that the id is among the suggestions. The partition
  invariant therefore needs the fact that menu items are rendered only from
  the suggestions (`ChipAutocomplete.tsx:216-217`) and only while the menu is
  open. `Feasible` states this.
- When Backspace removes a chip, its candidate is pushed onto a copy of the
  suggestions that is never stored (`ChipAutocomplete.tsx:164-178`). So the
  handler leaves the suggestions unchanged. They are rebuilt only by the
  layout effect, and only while the menu is open. With the menu closed, the
  removed candidate is not offered again
  (`BackspaceClosedMenuKeepsSuggestions`).
- The input has no `onBlur` handler (`ChipAutocomplete.tsx:203-212`).
  `handleOnInputBlur` runs only from the document click listener.

Two facts come from the render-only files. Menu items stop the click from
propagating (`MenuItem.tsx:13`), so a select never also counts as a click
away. A chip's close icon carries the id `"chip"` (`Chip.tsx:51`), so the
click listener ignores it. `DocumentClick(targetIsChip, insideContainer)`
models the click listener, and these two facts are its two inputs.

## Model

| member | source | states |
|---|---|---|
| `JsStrings.Trim` | src/components/chipAutocomplete/ChipAutocomplete.tsx:76 | `val.trim() === ""` holds exactly when every character of `val` is an ECMAScript white-space or line-terminator code point; a non-empty result starts and ends with a character `trim` keeps |
| `JsStrings.TrimStart` | src/components/chipAutocomplete/ChipAutocomplete.tsx:76 | trimming the front leaves a suffix that does not start with white space; everything dropped was white space |
| `JsStrings.TrimEnd` | src/components/chipAutocomplete/ChipAutocomplete.tsx:76 | trimming the back leaves a prefix that does not end with white space; everything dropped was white space |
| `JsStrings.ToLower` | src/components/chipAutocomplete/ChipAutocomplete.tsx:87 | lowering keeps the length, maps each character on its own, and leaves no upper-case ASCII letter |
| `JsStrings.IndexOf` | src/components/chipAutocomplete/ChipAutocomplete.tsx:87 | `indexOf(q) > -1` exactly when `q` occurs in the string, and the result is then the first offset where it occurs |
| `JsStrings.UpperCaseNotInLowered` | src/components/chipAutocomplete/ChipAutocomplete.tsx:87 | a query that holds an upper-case ASCII letter never occurs in a lowered name |
| `Candidates.Filter` | src/components/chipAutocomplete/ChipAutocomplete.tsx:102-105 | the result is a subsequence of the input. It holds every copy of each entry the criterion keeps, and no copy of any other entry. So it is exactly what the `forEach`/`push` loop and `.filter` build, repeated records included |
| `Candidates.FilterNarrows` | src/components/chipAutocomplete/ChipAutocomplete.tsx:85-90 | a criterion that keeps less yields a subsequence of what a wider one yields |
| `Candidates.FilterKeepsAll` | src/components/chipAutocomplete/ChipAutocomplete.tsx:103-105 | a filter that keeps every entry returns its input unchanged |
| `Candidates.FilterRemovesOne` | src/components/chipAutocomplete/ChipAutocomplete.tsx:115 | filtering out an id that occurs once, at index k, cuts out exactly entry k |
| `Candidates.FilterKeepsNone` | src/components/chipAutocomplete/ChipAutocomplete.tsx:85-90 | a criterion that keeps no entry of the list leaves no suggestions |
| `Candidates.FilterKeepsUnique` | src/components/chipAutocomplete/ChipAutocomplete.tsx:85-115 | filtering a list whose ids are unique gives a list whose ids are unique |
| `Candidates.Keeps` | src/components/chipAutocomplete/ChipAutocomplete.tsx:85-115 | encodes the three filter callbacks. The reset keeps a candidate whose id is not a chip's (:104). The query filter keeps one whose lowered name contains the query as typed and whose id is not a chip's (:87). The select filter keeps every id but the selected one (:115) |
| `Candidates.ChipType.AsData` | src/components/chipAutocomplete/ChipAutocomplete.tsx:131-136 | encodes the four-field object rebuilt from a chip (also at :170-175): the chip's `id`, `name`, `email` and `avatar`, without `highlight` |
| `Candidates.ChipOfAsData` | src/components/chipAutocomplete/ChipAutocomplete.tsx:131-136 | the spread of the rebuilt candidate with the chip's own flag gives back the chip, so deleting a chip and selecting its candidate again loses no field |
| `Candidates.ChipOf` | src/components/chipAutocomplete/ChipAutocomplete.tsx:117 | the spread `{ ...ele, highlight: false }` carries the candidate's four fields unchanged and sets the flag |
| `Candidates.FindChipIndex` | src/components/chipAutocomplete/ChipAutocomplete.tsx:127-129 | `findIndex` gives -1 exactly when no chip has the id, and otherwise the first index of a chip with it |
| `Candidates.FindDataIndex` | src/components/chipAutocomplete/ChipAutocomplete.tsx:112 | gives -1 exactly when no candidate has the id, and otherwise the first index of a candidate with it |
| `Candidates.FindById` | src/components/chipAutocomplete/ChipAutocomplete.tsx:112-114 | `find` gives nothing exactly when no candidate has the id, and otherwise the first candidate with it |
| `Candidates.CollectChipIds` | src/components/chipAutocomplete/ChipAutocomplete.tsx:98-100 | the `forEach` loop collects exactly the set of chip ids |
| `Candidates.CollectFiltered` | src/components/chipAutocomplete/ChipAutocomplete.tsx:85-90 | the `forEach`/`push` loop builds exactly `Filter(data, criterion)` |
| `ChipTransitions.Mounted` | src/components/chipAutocomplete/ChipAutocomplete.tsx:184-185 | after mounting there are no chips, the menu is closed, the query is empty and every candidate is offered |
| `ChipTransitions.MountedValid` | src/components/chipAutocomplete/ChipAutocomplete.tsx:36-39 | the partition invariant holds in the initial state |
| `ChipTransitions.ResetFilteredArr` | src/components/chipAutocomplete/ChipAutocomplete.tsx:97-107 | the suggestions become exactly the filter of `data` by "id not a chip's": every entry of `data` with such an id, in `data` order and with its repeats; nothing else changes |
| `ChipTransitions.InputChange` | src/components/chipAutocomplete/ChipAutocomplete.tsx:72-93 | `value` becomes the raw text. A blank text gives the reset suggestions. Otherwise the suggestions are exactly the filter of `data` by "unchipped and the lowered name contains the text", so a candidate is offered exactly when both hold. Either way they are a subsequence of the reset suggestions |
| `ChipTransitions.Select` | src/components/chipAutocomplete/ChipAutocomplete.tsx:111-120 | an id not in `data` changes nothing. Otherwise the first candidate with the id is appended as an unhighlighted chip and the earlier chips stay. The suggestions become exactly the filter of the old suggestions by "id is not the selected one": that id's entries go and the rest stay, in order. `value` becomes "" |
| `ChipTransitions.Delete` | src/components/chipAutocomplete/ChipAutocomplete.tsx:124-142 | an id no chip has changes nothing. Otherwise the first chip with the id is cut out and the others keep their order. Its id, name, email and avatar are appended to the suggestions, and `|chips| + |filteredRes|` is preserved |
| `ChipTransitions.KeyUp` | src/components/chipAutocomplete/ChipAutocomplete.tsx:158-179 | nothing changes unless the key is Backspace, there are chips and the query is empty. Then an unhighlighted tail is highlighted with the length kept, or a highlighted tail is removed. The suggestions are never changed |
| `ChipTransitions.InputBlur` | src/components/chipAutocomplete/ChipAutocomplete.tsx:63-68 | the menu closes and the query is cleared; chips and suggestions are untouched |
| `ChipTransitions.ClickAway` | src/components/chipAutocomplete/ChipAutocomplete.tsx:146-154 | a click on an element with id "chip" or inside the container changes nothing; any other click blurs |
| `ChipTransitions.Focus` | src/components/chipAutocomplete/ChipAutocomplete.tsx:210 | focus opens the menu and changes nothing else |
| `ChipTransitions.LayoutEffect` | src/components/chipAutocomplete/ChipAutocomplete.tsx:192-195 | with the menu open the suggestions are reset for the current chips; with it closed nothing changes |
| `ChipTransitions.Handle` | src/components/chipAutocomplete/ChipAutocomplete.tsx:186-217 | each event runs its own handler. Only select, delete and key release touch the chips. Only typing, select and delete touch the suggestions, so a Backspace removal does not. Only focus and a document click move the menu. Only typing, select and a document click touch the query |
| `ChipTransitions.SetsChips` | src/components/chipAutocomplete/ChipAutocomplete.tsx:117-178 | the handler reaches one of its three `setChips` calls (:117, :141, :178) exactly when the chips it leaves differ from the old ones, so the layout effect's `chips` dependency changes exactly then |
| `ChipTransitions.Feasible` | src/components/chipAutocomplete/ChipAutocomplete.tsx:214-218 | menu items, the only source of a select, exist only while the menu is open and only for the current suggestions |
| `ChipTransitions.Dispatch` | src/components/chipAutocomplete/ChipAutocomplete.tsx:192-195 | an event runs its handler. If the chips were set or the menu has just opened, and the menu is open, the suggestions are then reset. In every other case, including a chip change or a click-away with the menu closed at the end, the handler's result stands exactly |
| `ChipTransitions.ResetPreservesValid` | src/components/chipAutocomplete/ChipAutocomplete.tsx:97-107 | resetting the suggestions keeps the partition invariant, since only unchipped candidates are offered |
| `ChipTransitions.InputChangePreservesValid` | src/components/chipAutocomplete/ChipAutocomplete.tsx:81-92 | typing keeps chip ids distinct and keeps chip ids and suggestion ids disjoint, since only unchipped candidates are offered |
| `ChipTransitions.SelectPreservesValid` | src/components/chipAutocomplete/ChipAutocomplete.tsx:115-117 | selecting a suggestion keeps chip ids distinct and keeps chip ids and suggestion ids disjoint |
| `ChipTransitions.DeletePreservesValid` | src/components/chipAutocomplete/ChipAutocomplete.tsx:131-138 | deleting a chip keeps chip ids distinct and keeps chip ids and suggestion ids disjoint |
| `ChipTransitions.KeyUpPreservesValid` | src/components/chipAutocomplete/ChipAutocomplete.tsx:168-176 | Backspace keeps chip ids distinct and keeps chip ids and suggestion ids disjoint |
| `ChipTransitions.HandlePreservesValid` | src/components/chipAutocomplete/ChipAutocomplete.tsx:209-217 | every handler the rendered input, chips and menu items can trigger keeps the partition invariant |
| `ChipTransitions.DispatchPreservesValid` | src/components/chipAutocomplete/ChipAutocomplete.tsx:216-217 | for every event the rendered widget can produce (selects only from the open menu's suggestions), no id is ever both a chip and a suggestion, chip ids stay distinct, and every chip and suggestion is a candidate |
| `ChipTransitions.HighlightOnlyRises` | src/components/chipAutocomplete/ChipAutocomplete.tsx:168-176 | no event turns a highlight flag from true to false. A chip that becomes highlighted is the tail chip, and the event was a key release. New chips start unhighlighted |
| `ChipTransitions.BackspaceTwiceRemovesTail` | src/components/chipAutocomplete/ChipAutocomplete.tsx:162-178 | two Backspaces on an empty query with an unhighlighted tail remove exactly that chip, and leave the suggestions and the query as they were |
| `ChipTransitions.BackspaceEventsRemoveTail` | src/components/chipAutocomplete/ChipAutocomplete.tsx:158-179 | the same two key releases, each followed by the layout effect, also remove exactly the tail chip |
| `ChipTransitions.BackspaceClosedMenuKeepsSuggestions` | src/components/chipAutocomplete/ChipAutocomplete.tsx:164-178 | with the menu closed, two dispatched Backspaces give exactly the old state minus the tail chip. The suggestions stay as they were, so the removed candidate is not offered again |
| `ChipTransitions.FocusAfterMount` | src/components/chipAutocomplete/ChipAutocomplete.tsx:184-195 | focusing a freshly mounted widget opens the menu on every candidate, in `data` order |
| `ChipTransitions.SelectDispatched` | src/components/chipAutocomplete/ChipAutocomplete.tsx:111-120 | selecting a suggestion from the open menu appends one chip with the selected id, keeps chip ids distinct, clears the query and leaves the menu open |
| `ChipTransitions.DeleteTailDispatched` | src/components/chipAutocomplete/ChipAutocomplete.tsx:124-142 | with the menu open, deleting the tail chip gives back the chips before it, with the suggestions reset for them |
| `ChipTransitions.SelectThenDeleteResets` | src/components/chipAutocomplete/ChipAutocomplete.tsx:111-142 | with the menu open, selecting a suggestion and then deleting its chip gives back the chips and clears the query. Whatever the suggestions were before, a narrowed query result included, they become the full list of unselected candidates |
| `ChipTransitions.SelectThenDeleteRestores` | src/components/chipAutocomplete/ChipAutocomplete.tsx:111-142 | with the menu open and the suggestions settled, selecting a suggestion and then deleting its chip restores the state, except that the query is cleared |
| `ChipTransitions.SelectThenDeletePermutes` | src/components/chipAutocomplete/ChipAutocomplete.tsx:115-138 | without the layout effect, select then delete restores the chips exactly and the suggestions up to order. This holds when `data` ids are unique and the selected id occurs only once among the suggestions |
| `ChipTransitions.DispatchKeepsUniqueSuggestions` | src/components/chipAutocomplete/ChipAutocomplete.tsx:85-142 | when `data` ids are unique, no two suggestions ever share an id. Mounting offers `data` itself. Every filter keeps a sub-list of a list with unique ids. A delete appends a chip's candidate, and the partition invariant keeps that id out of the suggestions |
| `ChipTransitions.SelectThenDeletePermutesUnique` | src/components/chipAutocomplete/ChipAutocomplete.tsx:115-138 | in every state reached on unique `data` ids, select then delete without the layout effect restores the chips exactly and the suggestions up to order |
| `ChipTransitions.RequeryIdempotent` | src/components/chipAutocomplete/ChipAutocomplete.tsx:72-93 | typing the same text again on the same chips gives the same state |
| `ChipTransitions.ClearingQueryShowsUnselected` | src/components/chipAutocomplete/ChipAutocomplete.tsx:76-78 | clearing the query, whatever was typed before, shows every unchipped candidate |
| `ChipTransitions.UpperCaseQueryMatchesNothing` | src/components/chipAutocomplete/ChipAutocomplete.tsx:87 | since only the name is lowered, a query holding an upper-case ASCII letter leaves no suggestions |
| `ChipTransitions.SelectScenario` | src/components/chipAutocomplete/ChipAutocomplete.tsx:111-120 | with Ann and Bo as candidates, focus offers both. Selecting Ann makes her the only chip, leaves Bo as the only suggestion and clears the query |
| `ChipAutocompleteComponent.ChipAutocomplete.constructor` | src/components/chipAutocomplete/ChipAutocomplete.tsx:34-39 | mounting gives the initial state with every candidate offered, and the invariant holds |
| `ChipAutocompleteComponent.ChipAutocomplete.ResetFilteredArr` | src/components/chipAutocomplete/ChipAutocomplete.tsx:97-107 | the two loops store exactly the reset suggestions, and the invariant is kept |
| `ChipAutocompleteComponent.ChipAutocomplete.HandleOnInputChange` | src/components/chipAutocomplete/ChipAutocomplete.tsx:72-93 | the fields become `InputChange` of the old state, and the invariant is kept |
| `ChipAutocompleteComponent.ChipAutocomplete.HandleOnSelect` | src/components/chipAutocomplete/ChipAutocomplete.tsx:111-120 | the fields become `Select` of the old state. The invariant is kept when the id is among the old suggestions |
| `ChipAutocompleteComponent.ChipAutocomplete.HandleOnDelete` | src/components/chipAutocomplete/ChipAutocomplete.tsx:124-142 | the clone, push and splice leave the fields at `Delete` of the old state, and the invariant is kept |
| `ChipAutocompleteComponent.ChipAutocomplete.HandleKeyUp` | src/components/chipAutocomplete/ChipAutocomplete.tsx:158-179 | the pop or in-place flag update leaves the fields at `KeyUp` of the old state, and the invariant is kept |
| `ChipAutocompleteComponent.ChipAutocomplete.HandleOnInputBlur` | src/components/chipAutocomplete/ChipAutocomplete.tsx:63-68 | the fields become `InputBlur` of the old state |
| `ChipAutocompleteComponent.ChipAutocomplete.HandleClickAway` | src/components/chipAutocomplete/ChipAutocomplete.tsx:146-154 | the fields become `ClickAway` of the old state |
| `ChipAutocompleteComponent.ChipAutocomplete.HandleOnFocus` | src/components/chipAutocomplete/ChipAutocomplete.tsx:210 | the fields become `Focus` of the old state |
| `ChipAutocompleteComponent.ChipAutocomplete.LayoutEffect` | src/components/chipAutocomplete/ChipAutocomplete.tsx:192-195 | the fields become `LayoutEffect` of the old state |
| `ChipAutocompleteComponent.ChipAutocomplete.Dispatch` | src/components/chipAutocomplete/ChipAutocomplete.tsx:199-218 | running the handler and then, if needed, the layout effect leaves the fields at `Dispatch` of the old state. Every feasible event keeps the invariant |

## Left out

- Menu positioning is left out (`handlePositionMenu` minus its final reset, and `MENU_OFFSET`). This is DOM geometry on floating-point coordinates. The layout effect keeps only the reset of the suggestions.
- `handlePositionMenu` returns early while the menu or input element is not mounted. This is not modelled: while the menu is shown both are mounted when layout effects run.
- `inputRef.current.focus()`, `console.log`, and adding and removing the document click listener are left out. They are DOM and lifecycle plumbing.
- The click listener's `if (!div) return` is not modelled, since the container is mounted whenever the listener is installed. The target's position is an input of the event, `insideContainer`.
- React specifics are left out: state batching, JSX rendering and the unused `renderChip` prop. `structuredClone` is modelled as a value copy.
- Loading `data.json` (`App.tsx`) is not part of this model. `data` is a constructor parameter.
- JsStrings.ToLower: lowers only the ASCII letters A-Z, not the full Unicode case mapping of `toLowerCase`.
- JsStrings.IndexOf: works on Unicode scalar values rather than UTF-16 code units. The two agree except for characters outside the Basic Multilingual Plane.
- ChipTransitions.Dispatch: models the layout effect's dependency check as "the chips or `showMenu` differ after the handler". Every `setChips` call passes a new array, which React compares by identity; `SetsChips` shows the contents change whenever such a call is made, so the two tests agree. React's scheduling of effects itself is not modelled.
