# MentionJS editing core in Dafny

This project models the editing logic of the `MentionJS` widget
(`src/mentionjs.js`). The widget watches a content-editable element. When
the user types `@`, it offers the configured categories (`types`). After a
category is chosen, it offers that category's records (`data[tipo]`). After
a record is chosen, it replaces the typed `@query` with a non-editable
mention token labelled `Category:name`.

The DOM is replaced by a flat sequence of inline nodes (`Editor.Node`):
`Text(s)` or `Mention(category, caption)`. The caret (`Editor.Caret`) is
either an offset inside a text node or a boundary between children of the
editor element. The second form is where `setStartAfter` leaves the caret
after a token is inserted. The widget's own fields sit next to the editor in
`Autocomplete.Widget`:

- `open` is the dropdown being displayed;
- `tipoSelecionado` and `buscandoRegistro` track the category session;
- `selectedIndex` is the highlight;
- `currentOptions` is the list of options, tagged with the click handler its
  items carry.

The source's arrow keys and Enter read the dropdown's `children`, not
`currentOptions`. The two differ only after an empty filter result: then
`currentOptions` is `[]` while the hidden dropdown keeps its old items. Both
handlers act only while the dropdown is displayed, and every path that
displays it renders `currentOptions` afresh. So the model reads
`currentOptions` in place of `children`.

A `TypeError` the source would throw is a `Failure(Fault)` result.

Modules, in dependency order:

- `Wrappers`: `Option` and `Result`.
- `Strings`: ASCII case mapping, `includes`, `indexOf` and `lastIndexOf`.
- `Seqs`: `Array.prototype.filter`, and replacing one element by several.
- `Mentions`: records, the record filter and the token label.
- `Editor`: trigger detection before the caret, the backward scan for the
  anchor node, and the two splices.
- `Autocomplete`: the handlers `handleKeyUp`, `handleKeyDown` and
  `navigateOptions`, the item click and mouse-over, `selectTipo`,
  `selectRegistro` and `hideAutocomplete`. It also holds the session
  invariant `Consistent` and event runs (`Step`, `Run`).
- `Findings`: concrete sessions. Two are the entries under Findings: one
  fault and one re-opened dropdown. One is a full mention insertion. One
  shows that the splice does not use the trigger the detector found.

Behaviour of `src/mentionjs.js` that the model follows:

- `data` is a static map from category to records, given to the
  constructor.
- Matching is `toLowerCase().includes(query)`. Records match on `nome` or
  on `descricao`.
- A record's displayed name is `nome || descricao`. A record with neither
  field shows `undefined`.
- Escape's press only hides the dropdown. It keeps `tipoSelecionado` and
  `buscandoRegistro`. Escape's release is skipped only while the dropdown
  is displayed, and the press has just hidden it. So the release detects the
  query again and can display the list again (see Findings).
- An empty filter result hides the dropdown.
- Choosing a category whose record list is empty opens an empty dropdown
  (see Findings).
- The `atIndex` computed by `handleKeyUp` is passed to the splices but never
  read. They cut at the last `@` of the whole anchor node, which can be a
  different `@` from the one the query was read after
  (`Findings.SpliceIgnoresDetectedTrigger`).
- When the backward scan finds no text node with `@`, the splices leave the
  text alone but still update the widget state.

## Model

| member | source | states |
|---|---|---|
| Strings.ToLower | src/mentionjs.js:116 | lower-casing keeps the length and maps every character independently |
| Strings.ToLowerIdempotent | src/mentionjs.js:116 | lower-casing an already lower-cased query changes nothing |
| Strings.IncludesIffOccurs | src/mentionjs.js:120 | `includes` holds exactly when the query occurs at some position |
| Strings.IncludesExtend | src/mentionjs.js:120 | a string that includes a longer query includes every prefix of it |
| Strings.IncludesNeedsFirst | src/mentionjs.js:120 | a non-empty query is only found in a string holding its first character |
| Strings.LastIndexOf | src/mentionjs.js:113 | `lastIndexOf` is -1 exactly when the character is absent, otherwise an occurrence with none after it |
| Strings.LastIndexOfUnique | src/mentionjs.js:265 | the occurrence with no occurrence after it is the one `lastIndexOf` returns |
| Strings.IndexOf | src/mentionjs.js:269 | `indexOf` is -1 exactly when the character is absent, otherwise an occurrence with none before it |
| Strings.IndexOfUnique | src/mentionjs.js:316 | the occurrence with no occurrence before it is the one `indexOf` returns |
| Seqs.Filter | src/mentionjs.js:119-121 | the filter keeps exactly the matching elements, each as often as in the input, in input order |
| Seqs.FilterAppend | src/mentionjs.js:130-133 | filtering a concatenation filters each part |
| Seqs.AllPass | src/mentionjs.js:119-121 | a filter every element passes returns the whole list |
| Seqs.ReplaceAt | src/mentionjs.js:272-277 | replacing one node by new siblings leaves everything before and after it in place |
| Mentions.Capitalise | src/mentionjs.js:297-298 | first letter upper-cased, the rest lower-cased; the same word up to case |
| Mentions.MentionLabel | src/mentionjs.js:296-299 | the label is the capitalised category, a colon, and the record's displayed name |
| Autocomplete.MentionFor | src/mentionjs.js:301-304 | the token's class suffix is the category in lower case, the same up to case as the start of its visible text, and its visible text is the label |
| Mentions.LabelNamesRecord | src/mentionjs.js:296 | the name part is `nome` when non-empty, otherwise `descricao` |
| Editor.Tokens | src/mentionjs.js:301-304 | the inserted tokens are exactly the mention nodes, in document order |
| Editor.TextContentAppend | src/mentionjs.js:110 | the text of consecutive nodes is the concatenation of their texts |
| Editor.TextBeforeCaret | src/mentionjs.js:109-112 | text exists only for a caret in a text node; it is the prefix up to the clamped offset |
| Editor.DetectQuery | src/mentionjs.js:109-116 | a query exists exactly when an `@` precedes the caret in its text node; it is the lower-cased text after the last one |
| Editor.QueryOfTriggerUnique | src/mentionjs.js:113-116 | the query is determined by the text before the caret |
| Editor.SplitAtTrigger | src/mentionjs.js:264-270 | the anchor text is before + `@` + query + optional space and rest, cut at the last `@` and the first space after it |
| Editor.SplitUnique | src/mentionjs.js:311-317 | any valid such reading of a text is the one the split computes |
| Editor.ScanBack | src/mentionjs.js:263-287 | the scan stops at the nearest text node with `@`, crossing only text nodes without one |
| Editor.RunStart | src/mentionjs.js:263-286 | `previousSibling` walking stops at the first non-text node or the start |
| Editor.FindTriggerNode | src/mentionjs.js:306-310 | the scan starts at the caret's node, and never runs for a caret on the editor element |
| Editor.SpliceTipo | src/mentionjs.js:272-283 | the anchor becomes its text up to and including `@`, a non-empty rest follows as `' ' + rest`, other nodes stay, the caret sits just after `@` |
| Editor.SpliceRegistro | src/mentionjs.js:319-334 | the anchor keeps its text before `@`, then the token, a space node and a non-empty rest; other nodes stay; the caret follows the space node |
| Editor.SpliceTipoText | src/mentionjs.js:267-277 | choosing a category deletes the query (and a lone trailing space) from the editor text and nothing else |
| Editor.SpliceRegistroText | src/mentionjs.js:314-328 | choosing a record replaces `@query` with the token text followed by a space, and nothing else |
| Editor.SpliceTipoTokens | src/mentionjs.js:272-277 | choosing a category leaves the tokens unchanged |
| Editor.SpliceRegistroTokens | src/mentionjs.js:319-328 | choosing a record inserts exactly one token where the anchor was, the others keep their order |
| Autocomplete.FilterTypes | src/mentionjs.js:118-121 | the categories offered are exactly those whose lower-cased name includes the query, in configured order |
| Autocomplete.FilterRecords | src/mentionjs.js:129-133 | the records offered are exactly those whose `nome` or `descricao` lower-cased includes the query, in order |
| Autocomplete.FilterTypesNarrows | src/mentionjs.js:116-121 | typing more after `@` never adds categories |
| Autocomplete.FilterRecordsNarrows | src/mentionjs.js:129-133 | typing more after `@` never adds records |
| Autocomplete.EmptyQueryOffersAll | src/mentionjs.js:119-121 | right after `@`, every category is offered |
| Autocomplete.HandleKeyUp | src/mentionjs.js:99-145 | navigation keys on an open list are ignored; no trigger closes; a non-empty result opens with the first item highlighted, an empty one closes; the session fields and text never change |
| Autocomplete.HideAutocomplete | src/mentionjs.js:251-253 | only the dropdown's display changes: the session fields, the highlight, the options and the text are kept |
| Autocomplete.HandleKeyUpGuarded | src/mentionjs.js:100-103 | the release of Escape is always ignored; every other key behaves as the source |
| Autocomplete.EscapeReleaseRedetects | src/mentionjs.js:92-103 | as written, after Escape's press hides the dropdown its release is handled like any other key, and a found query displays the list again whenever it matches something |
| Autocomplete.EscapeKeepsClosed | src/mentionjs.js:92-103 | with the release ignored, Escape's press and release leave the dropdown hidden and everything else as it was |
| Autocomplete.NavigateOptions | src/mentionjs.js:147-161 | an empty list is a no-op; otherwise the new index is in range, the old one moved by one modulo the length, and -1 goes to the first or last item |
| Autocomplete.NavigateDownUp | src/mentionjs.js:155-157 | down then up returns to the same item |
| Autocomplete.NavigateUpDown | src/mentionjs.js:155-157 | up then down returns to the same item |
| Autocomplete.Navigate | src/mentionjs.js:148-159 | an arrow key only moves the highlight, one step around the list (from -1 to the first or last item), and throws exactly when the highlight is neither -1 nor an item of a non-empty list |
| Autocomplete.SelectTipo | src/mentionjs.js:255-293 | the category is selected, the record search starts on all its records with the first highlighted, and the text changes only by the splice at the anchor the scan finds |
| Autocomplete.SelectRegistro | src/mentionjs.js:295-343 | the session ends closed and idle, and the text changes only by inserting the record's token at the anchor |
| Autocomplete.SelectTipoKeepsTokens | src/mentionjs.js:255-287 | choosing a category never changes the tokens |
| Autocomplete.SelectRegistroAddsToken | src/mentionjs.js:301-338 | choosing a record adds exactly the one token built from the category and record |
| Autocomplete.SelectRegistroWithoutAnchor | src/mentionjs.js:340-342 | with no anchor, the text is untouched but the session still ends |
| Autocomplete.Confirm | src/mentionjs.js:172-178 | a click on a category is `selectTipo` of that category, a click on a record is `selectRegistro` of that record; it throws only for a missing item, unknown category or no selected category |
| Autocomplete.ConfirmRecordAddsToken | src/mentionjs.js:172-178 | a successful click on a record with an anchor adds exactly one token, the one for that record and category: the tokens after are, as a multiset, those before plus that one |
| Autocomplete.MouseOver | src/mentionjs.js:179-186 | the highlight moves onto the hovered item, nothing else changes |
| Autocomplete.HandleKeyDown | src/mentionjs.js:83-97 | nothing happens while closed; Escape only closes; Enter clicks the highlighted index unless it is -1; ArrowDown steps forward and ArrowUp back |
| Autocomplete.HandleKeyDownGuarded | src/mentionjs.js:88-91 | Enter clicks only an item that exists; every other key behaves as the source |
| Autocomplete.GuardedAgreesWithAsWritten | src/mentionjs.js:83-97 | wherever the source does not throw, the guarded handler does the same |
| Autocomplete.InitConsistent | src/mentionjs.js:14-18 | the constructor's state is idle and consistent |
| Autocomplete.KeyUpKeepsConsistent | src/mentionjs.js:99-145 | a key release never throws from a consistent state and keeps it consistent |
| Autocomplete.ConfirmKeepsConsistent | src/mentionjs.js:202-204 | clicking an item of the open list never throws from a consistent state and keeps it consistent |
| Autocomplete.KeyDownKeepsConsistent | src/mentionjs.js:83-97 | the guarded key press never throws from a consistent state and keeps it consistent |
| Autocomplete.StepKeepsConsistent | src/mentionjs.js:78-81 | every event of the guarded widget succeeds and keeps the invariant |
| Autocomplete.RunKeepsConsistent | src/mentionjs.js:78-81 | any sequence of events on the guarded widget never throws and ends consistent |
| Autocomplete.AsWrittenFaultsOnlyOnEmptyList | src/mentionjs.js:88-91 | from a consistent state the source throws only on Enter with the dropdown open and empty |
| Findings.ChoosingEmptyCategoryOpensEmptyList | src/mentionjs.js:289-292 | choosing a category with no records leaves the dropdown open, empty, with index 0 |
| Findings.EnterOnEmptyCategoryThrows | src/mentionjs.js:88-91 | the concrete session that throws as written and does not when guarded |
| Findings.PickGreenInsertsMention | src/mentionjs.js:295-343 | typing `@col`, Enter, ArrowDown, Enter inserts the single token `Colors:Green` and ends idle |
| Findings.EscapeReleaseReopens | src/mentionjs.js:92-103 | on `hi @col` with `colors` offered, Escape's press and release display the list again as written, and leave it hidden when the release is ignored |
| Findings.SpliceIgnoresDetectedTrigger | src/mentionjs.js:264-283 | with the caret after the first `@` of `@ a@b`, the splice cuts at the second one |

## Left out

- DOM and CSS construction, listener binding, `destroy` and the module
  export. They are rendering and plumbing with no state logic.
- `positionAutocomplete`, `getCursorCoordinates` and `scrollIntoView`. These
  are viewport arithmetic. The model assumes a selection range always
  exists, so the dropdown is displayed whenever it is rendered.
- The `selected` class on items. It is presentation that mirrors
  `selectedIndex`.
- `toLowerCase` and `toUpperCase` are restricted to ASCII letters. Locale
  and Unicode case mapping are not modelled.
- Strings are sequences of Unicode scalar values. Caret offsets and the
  results of `indexOf` and `lastIndexOf` count characters, not UTF-16 code
  units as in JavaScript, so they differ once the text holds characters
  outside the Basic Multilingual Plane. DOM text can hold lone surrogates,
  which the model cannot represent.
- A caret inside a token's own text is not modelled. Tokens are
  `contentEditable = false`.
- Partial effects before a throw are not modelled. A fault ends the run.
  - Example: `selectTipo` on an unknown category has already spliced the
    text and set `tipoSelecionado` when `registros.forEach` throws.
- `Record` fields are `Option<string>`. `null` and `undefined` are not
  distinguished; an absent field shows as `undefined`.
- `data[null]` is looked up under the key `"null"` in JavaScript. The model
  treats a record search without a category as a fault. The session
  invariant rules this state out.
- The browser's own editing between events is the `Edit` event: any new
  text and caret.
- Keyboard events are independent: the model does not pair each key press
  with its release. A run can still press and release the same key in
  turn, as `Findings.EscapeReleaseReopens` does.
- `Click` assumes the editor's selection survives the press on the item, as
  it does for the programmatic `click()` of Enter. Nothing in the source
  keeps a mouse press from moving the selection into the item's own text
  (no `mousedown` handler, no saved range). When it does, the backward scan
  finds no anchor, and the state changes without a splice: for a record, the
  session ends with no token inserted. `Autocomplete.SelectRegistroWithoutAnchor`
  states that outcome; `Step` does not produce it from a `Click`.
- The example applications and the build configuration are not part of
  this model. The remote sources, formatters and `getHtml`/`getJson`/
  `getText` they call do not exist in `src/mentionjs.js`.

## Findings

| source | as written | input that shows it | evidently intended | confidence | as-written member | corrected member |
|---|---|---|---|---|---|---|
| src/mentionjs.js:88-91 | Enter clicks `children[selectedIndex]` whenever `selectedIndex !== -1`; `selectTipo` sets it to 0 and opens the dropdown even when the category has no records | `types = ["x"]`, `data = {x: []}`, text `@` with the caret after it: release a key, press Enter, press Enter; the second Enter calls `.click()` on `undefined` | Enter acts only when an item is highlighted, `0 <= selectedIndex < children.length` | not executed; high | Findings.EnterOnEmptyCategoryThrows | Autocomplete.HandleKeyDownGuarded |
| src/mentionjs.js:100-103 | `handleKeyUp` skips Escape only while the dropdown is displayed, but Escape's press has just hidden it (:92-94), so the release detects the query again | `types = ["colors", "numbers"]`, text `hi @col` with the caret at the end and `colors` offered: press Escape, release Escape; the list is displayed again | the release of Escape is ignored and the dropdown stays hidden | not executed; medium | Findings.EscapeReleaseReopens | Autocomplete.HandleKeyUpGuarded |

The corrected handlers are the ones the invariant theorems use
(`Autocomplete.RunKeepsConsistent`: no run throws).
`Autocomplete.EscapeKeepsClosed` states the intended Escape behaviour of the
corrected pair.
`Autocomplete.AsWrittenFaultsOnlyOnEmptyList` shows that this crash is the
only way the handler as written can throw from a consistent state.
