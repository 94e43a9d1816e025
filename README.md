# To-do list state model

A Dafny model of the browser to-do list in `src/main.js`. The module keeps two pieces of
state: the array `todos`, newest entry first, and the selected filter `currentFilter`.
Each event handler replaces or changes that array:
- add: trims the text, drops it when empty, otherwise `unshift`s a new entry;
- toggle: flips `completed` on the entries with the id;
- save an inline edit;
- delete by id;
- clear completed.

After every change the handler writes the list to local storage and re-renders. The renderer
takes the filtered view, picks one of three displays, and fills in the footer: the active
count, its "item"/"items" wording, and whether clear-completed is enabled.

Layout:
- `text.dfy` (module `Text`): JavaScript's `trim` and the decimal numeral that a count
  becomes inside a template literal.
- `todos.dfy`:
  - module `Todos`: the `Todo` record, `Filter`, and the `map`/`filter` computations the
    handlers perform, as functions on `seq<Todo>`;
  - module `TodoLaws`: the laws of those operations, plus the edit session and its commit.
- `view.dfy` (module `View`): `getFilteredTodos`, the branch choice of `renderTodos`, and
  `updateStats`, as functions of `(todos, filter)`.
- `store.dfy` (module `Store`): the class `TodoStore`. Its fields are `todos`,
  `currentFilter`, and `stored`, the collection most recently written to storage in this
  session. Its methods are the handlers. Each method's `ensures` gives the new value of every
  field in terms of the list functions above. The module also holds the start-up load and a
  client method, `BuyMilkScenario`, that replays one session for any two already-trimmed,
  non-empty texts: add both, complete the older entry, switch to the active filter, and read
  the views and the footer.

Behaviour of the code that the model follows:
- Ids come from `Date.now()` and can repeat. Toggle, edit and delete therefore act on every
  entry carrying the id, and nothing in the model assumes ids are unique.
- `saveEdit` compares the trimmed buffer with the text captured when `editTodo` started
  (the closure's `todo`), not with the entry's current text. `EditSession` holds that
  captured text. `CommitSameText` shows that committing the text the entries already have
  changes nothing either way.
- The filter click handler stores the button's `data-filter` string. The `switch` in
  `getFilteredTodos` treats every value other than `"active"` and `"completed"` as the
  default, which returns the whole list. `ParseFilter` maps the string to `Filter` with that
  default, so the stored `Filter` behaves exactly like the stored string.
- A missing item and an empty string both leave the list empty (`if (stored)` is false
  for `""`). A string that fails to parse is logged and replaced by the empty list. A parsed
  value is taken as it stands: absent fields get no defaults.
- Toggle, delete and clear-completed write to storage even when nothing changed. Add with
  blank text, an unchanged edit, and a filter change write nothing. `stored` records this.

## Model

| member | source | states |
|---|---|---|
| Text.LeadingSpace | src/main.js:44 | the count of leading characters that `trim` removes: all of them are white space and the next one is not |
| Text.TrailingSpace | src/main.js:44 | the same count for the end of the string |
| Text.Trim | src/main.js:44 | the result is empty exactly when every character is white space; a non-empty result starts and ends with a non-white-space character; white space is `Text.IsWhiteSpace`, the ECMAScript WhiteSpace and LineTerminator code points that `trim` removes |
| Text.TrimSlice | src/main.js:44 | the trimmed text is a contiguous slice of the input, and everything cut away is white space |
| Text.TrimIdempotent | src/main.js:88 | trimming a trimmed text changes nothing, so stored texts are fixed points of trim |
| Text.TrimOfTrimmed | src/main.js:44 | a text that starts and ends with non-white-space characters is its own trim |
| Text.Decimal | src/main.js:181 | the numeral of a count is non-empty, all digits, and has no leading zero unless it is "0" |
| Text.DecimalRoundTrip | src/main.js:181 | reading the numeral back gives the count |
| Text.DecimalInjective | src/main.js:181 | distinct counts give distinct numerals |
| Todos.Keep | src/main.js:110 | `filter` returns no more entries than it is given; an entry is in the result exactly when it is in the input and passes the predicate |
| Todos.KeepIsSubsequence | src/main.js:117 | `filter` keeps the relative order of what it keeps |
| Todos.KeepMultiplicity | src/main.js:126-128 | each passing entry appears as often as in the input; failing entries do not appear |
| Todos.KeepCardinality | src/main.js:180 | the result's length is the number of positions where the predicate holds |
| Todos.KeepAppend | src/main.js:110 | filtering a concatenation is concatenating the filtered parts |
| Todos.KeepAll | src/main.js:117 | filtering a list whose entries all pass returns it unchanged |
| Todos.KeepNone | src/main.js:128 | filtering a list none of whose entries pass returns the empty list |
| Todos.KeepIdempotent | src/main.js:117 | filtering twice by one predicate is filtering once |
| Todos.UpdateWhere | src/main.js:64-66 | the conditional `map` keeps the length; position i holds the updated entry when its id matches and the old entry otherwise |
| Todos.Added | src/main.js:43-55 | blank text leaves the list as it was; otherwise the list grows by one, the new head is uncompleted and carries the trimmed non-empty text, the given id and the timestamp, and the old list follows unchanged |
| Todos.Toggled | src/main.js:63-66 | length and order are kept; `completed` is flipped exactly on the entries with the id; id, text and timestamp never change |
| Todos.Renamed | src/main.js:90-92 | length and order are kept; the entries with the id get the new text; id, `completed` and timestamp never change |
| Todos.Deleted | src/main.js:109-110 | an entry survives exactly when it was in the list and its id differs |
| Todos.Cleared | src/main.js:116-117 | an entry survives exactly when it was in the list and is not completed |
| Todos.Find | src/main.js:74-75 | none exactly when no entry has the id; otherwise the entry returned is the first with the id |
| TodoLaws.AddAllGrowth | src/main.js:43-55 | a run of adds grows the list by exactly the number of non-blank texts, and the old list stays at the end, unchanged |
| TodoLaws.AddedGrowth | src/main.js:46-55 | one add prepends at most one entry; the old list follows |
| TodoLaws.DeleteUndoesAdd | src/main.js:109-110 | when no older entry has the new id, deleting that id restores the list as it was before the add |
| TodoLaws.ToggleTwice | src/main.js:63-66 | toggling the same id twice restores the list |
| TodoLaws.ToggleUnknown | src/main.js:63-66 | toggling an id no entry has changes nothing |
| TodoLaws.BeginEdit | src/main.js:73-75 | no session exactly when no entry has the id; otherwise the session captures the id and the text of the first entry with the id |
| TodoLaws.Committed | src/main.js:87-94 | a trimmed buffer that is empty or equal to the captured text changes nothing; otherwise only the text of the entries with the id changes, to the trimmed buffer, with length, order, ids, `completed` and timestamps kept; the condition of src/main.js:89 is the predicate `TodoLaws.Commits` |
| TodoLaws.CommitSameText | src/main.js:89 | committing a text that every entry with the id already has changes nothing |
| TodoLaws.CommitIdempotent | src/main.js:98-101 | saveEdit running a second time (Enter, then blur) changes nothing more |
| TodoLaws.DeleteTwice | src/main.js:109-110 | a second delete of the same id changes nothing |
| TodoLaws.DeleteUnknown | src/main.js:109-110 | deleting an id no entry has changes nothing |
| TodoLaws.DeleteKeepsOthers | src/main.js:110 | delete keeps the other entries in their original order, each as often as before, and removes every entry with the id |
| TodoLaws.ClearKeepsActive | src/main.js:117 | after clearing, no entry is completed; every active entry is kept, as often as before, in its original order |
| TodoLaws.ClearTwice | src/main.js:117 | clearing twice is clearing once |
| TodoLaws.TidyAdded | src/main.js:44-55 | when every text is non-empty and trimmed, add keeps that so |
| TodoLaws.TidyToggled | src/main.js:63-66 | toggle keeps every text non-empty and trimmed |
| TodoLaws.TidyCommitted | src/main.js:88-92 | an edit keeps every text non-empty and trimmed |
| TodoLaws.TidyDeleted | src/main.js:110 | delete keeps every text non-empty and trimmed |
| TodoLaws.TidyCleared | src/main.js:117 | clear-completed keeps every text non-empty and trimmed |
| View.ParseFilter | src/main.js:124-131 | "active" selects Active, "completed" selects Completed, and every other value selects the default |
| View.ViewOf | src/main.js:123-131 | the default view is the list itself; an entry is in a view exactly when it is in the list and the filter shows it |
| View.ViewSelects | src/main.js:125-130 | every view keeps list order and gives each shown entry its full multiplicity |
| View.ViewPartition | src/main.js:125-128 | the Active and Completed views' lengths add up to the list's length |
| View.DefaultShowsAll | src/main.js:129-130 | a filter value other than "active" and "completed" shows the whole list |
| View.ClearedViews | src/main.js:125-128 | after clear-completed, the Active view is the list itself and the Completed view is empty |
| View.Render | src/main.js:136-147 | the empty state shows exactly when the list is empty; "No todos in this filter" shows exactly when the list is non-empty and the view is empty; otherwise the rows are the view, which is non-empty |
| View.RenderAll | src/main.js:139-148 | under the default filter a non-empty list is listed in full |
| View.AnyCompleted | src/main.js:183 | `some` is true exactly when some entry is completed |
| View.StatsOf | src/main.js:179-185 | the active count is the number of positions holding an uncompleted entry; the label is that count's label, `View.CountLabel` (the template literal of src/main.js:181: numeral, "item" or "items", "left"); clear-completed is enabled exactly when some entry is completed |
| View.LabelWording | src/main.js:181 | the label is "1 item left" exactly when the count is 1; any other count N reads "N items left" |
| View.LabelInjective | src/main.js:181 | distinct counts give distinct labels |
| View.StatsMatchViews | src/main.js:180-183 | the active count is the length of the Active view, and the control is enabled exactly when the Completed view is non-empty |
| Store.Loaded | src/main.js:193-203 | a missing or empty stored string, or one that fails to parse, yields the empty list; otherwise the parsed list |
| Store.TodoStore.constructor | src/main.js:4-18 | the initial state and `init`'s load: the list starts as `Store.Loaded` of the stored item (the load at src/main.js:193-203), the filter as the default, and nothing has been written |
| Store.TodoStore.Add | src/main.js:43-58 | the list becomes `Added` of the old list; storage is written only when the text is not blank; the filter is unchanged (that texts stay non-empty and trimmed is `TodoLaws.TidyAdded`) |
| Store.TodoStore.Toggle | src/main.js:63-68 | the list becomes `Toggled` of the old list and is written even for an unknown id; the filter is unchanged |
| Store.TodoStore.StartEdit | src/main.js:73-75 | no session exactly when no entry has the id; otherwise the session captures the id and the text of the first entry with the id |
| Store.TodoStore.SaveEdit | src/main.js:87-94 | the list becomes `Committed` of the old list; storage is written only when the edit commits; the filter is unchanged |
| Store.TodoStore.Delete | src/main.js:109-111 | the list becomes `Deleted` of the old list and is written; the filter is unchanged |
| Store.TodoStore.ClearCompleted | src/main.js:116-118 | the list becomes `Cleared` of the old list and is written; the filter is unchanged |
| Store.TodoStore.SelectFilter | src/main.js:31-32 | only the filter changes, to the parsed button value; the list and storage are untouched |

## Left out

- DOM lookups, event-listener wiring, the `active` class on filter buttons, the `innerHTML`
  row markup and its SVG icons: presentation, with no state of the list in them. `Render`
  returns the rows it would draw, not their markup.
- The checkbox state and the "completed" row style: each is the entry's own `completed`
  flag, copied into markup.
- `escapeHtml`: it relies on the browser's serializer, whose exact escaping is foreign code.
- The inline-edit DOM swap, focus and selection in `editTodo`. Only the captured state
  (`EditSession`) and the commit (`SaveEdit`) are modelled.
- The re-render that follows every handler: rendering is the pure function `Render` and
  `StatsOf` of the current fields, not a separate step.
- Clearing the input box after a successful add: it is DOM state. The text is a parameter
  of `Add`.
- `localStorage` and `JSON.stringify`/`JSON.parse`: foreign I/O and parsing. The outcome
  of `JSON.parse` is a parameter of the load, and a write is modelled as recording the
  list in `stored`. The model does not claim that a save followed by a load reproduces the
  list, since that depends on the JSON encoding.
- A `localStorage.getItem` that throws: the read sits outside the `try` in
  `loadFromLocalStorage` (src/main.js:194), so the error escapes `init`. `Loaded` has no such
  outcome.
- A parsed value that is not an array of entries with a numeric `id`, string `text` and
  `createdAt`, and boolean `completed`: the source stores it as it stands (src/main.js:197),
  and the first render then either throws before the event listeners are attached (`null`
  at src/main.js:139, most non-arrays at src/main.js:148, `""` or an object whose `length` is 0
  at src/main.js:180, a `null` element at src/main.js:149) or draws it with `undefined` or
  wrongly typed fields. The parse outcome of the load is typed as a list of `Todo`, which has
  exactly these four fields with these types, so such values are outside the model.
- The `console.error` at src/main.js:199 when the stored string fails to parse: a log
  message, with no effect on the list. `Loaded` yields the empty list and logs nothing.
- A `localStorage.setItem` that throws (quota exceeded, storage disabled): `saveToLocalStorage`
  (src/main.js:189-191) has no `try`, so in add, toggle, saveEdit, delete and clear-completed
  the exception leaves the handler after `todos` has already been reassigned. `todos` has then
  changed, `stored` would not be updated, and the re-render that follows the save does not
  happen. The methods' contracts always record the write and the new list, and the display is
  always the function of the current fields.
- `Date.now()` and `new Date().toISOString()`: clock reads, passed in as the id and the
  timestamp. Ids are not claimed to be unique.
- `window.*` exposure and the call to `init`: glue.
- Text is a sequence of Unicode scalar values. JavaScript strings are UTF-16 code units, but
  every character `trim` removes is a single code unit, so trimming agrees.
- Text.Trim: characters of the Unicode space-separator category are taken as those of
  Unicode 15 (U+0020, U+00A0, U+1680, U+2000 to U+200A, U+202F, U+205F, U+3000); a browser
  built on another Unicode version may differ.
