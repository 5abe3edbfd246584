# Gratitude for Millennium — verified model of the game-page synchroniser

Gratitude for Millennium is a Steam client plugin. On a game's page it shows
a small "Gift?" widget that says when and how the user acquired a licence for
that game. This project models its three sequential parts in Dafny and proves
properties of them.

- **The game-page synchroniser** (`frontend/injection/observer.ts`), in
  `observer.dfy`. The module-level variables `currentGameName`,
  `processingGameName`, `currentDoc` and `observer` are the fields of the class
  `Observer.ObserverState`. `detectGameName` and `detectTooltipContainer`
  read the document only and are functions of the module. `resetState`,
  `refreshDisplay`, `handleGamePage` (with its inner `updateDisplayForApp`),
  `setupObserver` and `disconnectObserver` change the module state and are
  methods of the class.
  - A backend call that has been issued but not yet answered is kept in the
    field `pending`. Its answer arrives in a separate step, `ReplyArrives`.
  - Each pass, reply and refresh is proved equal to a function on values:
    `PassOutcome`, `Shown`, `ReplyOutcome` or `RefreshOutcome`. The
    properties of the synchroniser are lemmas about those functions. The
    other methods state their new state field by field.
- **The display builder** (`frontend/display/components.ts`), in `display.dfy`:
  - the three-way status text;
  - the fixed shape of the widget tree;
  - looking up and removing the widget by its id, `gratitude-for-millennium`.
- **The licence-table parser** (`webkit/index.tsx`, `parseLicenseTable`), in
  `licenses.dfy`:
  - skipping the header row;
  - dropping incomplete rows;
  - trimming the date and acquisition;
  - cleaning the item text (split on newlines, trim, drop blank and
    `Remove` lines, join with spaces).

Supporting modules:

- `dom.dfy` is an abstract host document. It holds the texts of the elements
  matching the game-name selector and the child lists of the elements
  matching the tooltip-container selector, in document order.
  - Every inserted element carries a handle that stands for its JavaScript
    object identity. So a widget captured before a backend call can be told
    apart from a later widget with the same content.
  - `Document` is a class whose `AppendChild`, `Remove` and `ReplaceWith`
    methods work in place.
- `jsstring.dfy` holds JavaScript's `trim`, `split` on one character, and
  `join`.
- `wrappers.dfy` holds `Option`.

What the code does:

- **No `await`.** Nothing in `handleGamePage` is awaited, so a whole pass runs
  as one synchronous step. Two consequences are proved:
  - `currentGameName` is set to the pass's name at
    frontend/injection/observer.ts:181 and is not changed before
    frontend/injection/observer.ts:212. So the "game changed during fetch"
    branch cannot be taken. `ShowGame` puts `assert false` in it.
  - The `finally` block releases the lock while the backend call is still
    pending. The lock is therefore never held between steps
    (`LockFreeBetweenSteps`), and from the initial state the re-entry guard
    never fires.
- **The invariant across steps.** `Inv` holds of a document when its
  identities are unique, it holds at most one widget, and every pending call
  on it captured a widget or an element already detached. Passes, replies and
  refreshes keep it (`PassKeepsInv`, `ReplyKeepsInv`, `RefreshKeepsInv`), and
  so do steps on other documents. `resetState` and `disconnectObserver`
  change only fields that `Inv` does not read; `setupObserver` sets
  `observer`, which `Inv` does not read, and then runs one pass, which
  `PassKeepsInv` covers. So,
  as long as the host changes nothing but the name label between steps, the
  single-step facts about widgets hold under any interleaving of steps.
- **Stale replies.** A reply does not re-check the game name; it replaces the
  element it captured. When the document held at most one widget (which
  `Inv` keeps), a later pass removes that element, and `replaceWith` on the
  detached element changes nothing (`PassDetachesEarlierWidgets`).
  `removeExistingDisplay` removes only the first element with the widget id,
  so with two widgets a second one stays attached. This is how a reply from before a
  navigation is discarded (`NavigationDuringFetch`).
- **What the code does not have.** The code has no debounce timer, no record
  cache and no fuzzy name matcher, and a reply does not re-check the game
  name. The model follows the code.
- **Missing exports.** `frontend/index.tsx` imports `clearFrontendCache` and
  `onMainContentReady_Register` from observer.ts, which does not export them.
  `frontend/index.tsx` is not part of this model.

## Model

| member | source | states |
|---|---|---|
| JsString.Trim | webkit/index.tsx:77 | `trim()`: the result has no leading or trailing whitespace; it is empty exactly when the input is all whitespace; an already trimmed string is unchanged; every character of the result comes from the input |
| JsString.TrimRemovesOuterSpace | webkit/index.tsx:77 | the result of `trim()` is a slice of the input with only whitespace before and after it |
| JsString.Split | webkit/index.tsx:80 | `split('\n')`: at least one piece, and no piece contains the separator |
| JsString.JoinSplit | webkit/index.tsx:79-83 | joining the pieces of a split with the same separator gives back the original text |
| JsString.SplitWithoutSeparator | webkit/index.tsx:80 | a text without the separator splits into itself alone |
| JsString.JoinAvoids | webkit/index.tsx:83 | a join of pieces without a character, using a separator without it, does not contain it |
| JsString.JoinEnds | webkit/index.tsx:83 | a join of non-empty pieces starts with the first piece's first character and ends with the last piece's last character |
| JsString.JoinHasSeparator | webkit/index.tsx:83 | a join of two or more pieces contains the separator |
| Dom.FindIn | frontend/display/components.ts:85 | a found index is a child matching the key; none means no child matches |
| Dom.FindInFirst | frontend/display/components.ts:85 | no child before the found one matches the key |
| Dom.Find | frontend/display/components.ts:85 | `getElementById`: a found position holds a node matching the key; none means no node matches |
| Dom.FindFirst | frontend/display/components.ts:85 | the found node is the first match in document order: no earlier child of its container and no node of an earlier container matches |
| Dom.FindCount | frontend/display/components.ts:85 | the lookup finds nothing exactly when no node matches |
| Dom.FindUnique | frontend/display/components.ts:85 | when at most one node matches, the lookup finds that node |
| Dom.Replaced | frontend/injection/observer.ts:200 | `replaceWith` on a detached element changes nothing; otherwise it hands out a new identity, and labels and container count stay |
| Dom.RemovedNodes | frontend/display/components.ts:90 | `remove()` takes out exactly the node at its position: the remaining nodes plus that node are the original multiset |
| Dom.ReplacedValid | frontend/injection/observer.ts:200 | `replaceWith` keeps identities unique and below the next handle |
| Dom.AppendedValid | frontend/injection/observer.ts:189 | `appendChild` of a fresh element keeps identities unique and below the next handle |
| Dom.RemovedValid | frontend/display/components.ts:90 | `remove()` keeps identities unique and below the next handle |
| Dom.Document.constructor | frontend/injection/observer.ts:153 | a document object with the given content |
| Dom.Document.AppendChild | frontend/injection/observer.ts:189 | `container.appendChild(e)`: the element becomes the container's last child under a fresh identity; nothing else changes |
| Dom.Document.Remove | frontend/display/components.ts:90 | `element.remove()`: the node at the position is taken out of its container; nothing else changes |
| Dom.Document.ReplaceWith | frontend/injection/observer.ts:200 | `existing.replaceWith(e)`: the content becomes `Replaced` of the old content |
| Display.StatusTextCases | frontend/display/components.ts:66-72 | "Loading..." exactly for undefined data; "Licence data not found" exactly for null data or a record without a truthy acquisition; otherwise "Acquired on: date via acquisition " with the trailing space |
| Display.DisplayTree | frontend/display/components.ts:52-77 | the widget has the fixed id and children [icon, text]; the text div holds [label, value]; the label is always "Gift?" and the value is the status text |
| Display.DisplayTreeDeterminedByStatus | frontend/display/components.ts:61-72 | two widgets are equal exactly when their status texts are: nothing but the value depends on the data |
| Display.CreateDisplay | frontend/display/components.ts:45-82 | the successive `appendChild` calls build exactly the widget tree for the data |
| Display.GetExistingDisplay | frontend/display/components.ts:84-86 | none exactly when no element has the widget id; otherwise an element of the document with that id |
| Display.WithoutDisplayRemovesOnlyIt | frontend/display/components.ts:88-91 | without a widget, removal changes nothing; with one, exactly the widget `getExistingDisplay` returns is removed and the widget count drops by one |
| Display.RemoveExistingDisplay | frontend/display/components.ts:88-91 | the document loses its first widget, if any, and nothing else |
| Observer.DetectGameName | frontend/injection/observer.ts:45-52 | none exactly when no name element exists, its text is null, or its text is all whitespace; otherwise the trimmed, non-empty text |
| Observer.DetectTooltipContainer | frontend/injection/observer.ts:119-150 | none exactly when no container matches; otherwise the last match |
| Observer.PassOutcome | frontend/injection/observer.ts:153-236 | a pass that stops at a guard changes nothing. A pass past the guards records the name and document, releases the lock, and leaves one new backend call pending for the name and document. Labels, observer and container count never change |
| Observer.Shown | frontend/injection/observer.ts:179-218 | past the guards: the name and document are recorded, the old widget is removed and a loading widget appended to the chosen container under the next identity, one call for the name is pending, and the lock is free |
| Observer.ShownCapturesExisting | frontend/injection/observer.ts:186-192 | the call captures the first widget left after the loading widget is appended; that is the loading widget itself when the document held at most one widget (`ShownLeavesOneLoadingWidget`) |
| Observer.PassGuards | frontend/injection/observer.ts:154-177 | each early return (no container; no or blank name; name equal to the lock; widget with children for the current game) leaves state and document unchanged; past them a new identity and one call are issued |
| Observer.LockFreeBetweenSteps | frontend/injection/observer.ts:231-234 | from a state without a lock, passes, replies and refreshes leave no lock; there, whether a pass proceeds depends only on container, name and existing widget |
| Observer.PassLeavesOneLoadingWidget | frontend/injection/observer.ts:186-189 | when the document held at most one widget, past the guards the document holds exactly one widget: a fresh loading widget, the last child of the last container, and the target of the call just issued |
| Observer.ShownLeavesOneLoadingWidget | frontend/injection/observer.ts:186-192 | when the document held at most one widget, the same for the statements after the guards, for any chosen container |
| Observer.PassPreservesDocument | frontend/injection/observer.ts:186-189 | a pass keeps identities unique and at most one widget in the document |
| Observer.InsertedValid | frontend/injection/observer.ts:186-189 | removing the widget and appending the loading widget keeps identities unique |
| Observer.PassIdempotent | frontend/injection/observer.ts:173-177 | when the document held at most one widget, a second pass on the unchanged result of a pass changes neither state nor document |
| Observer.PassDetachesEarlierWidgets | frontend/injection/observer.ts:186-200 | when the document held at most one widget (which `Inv` keeps), past the guards every widget handed out earlier is detached, so a reply still pending for it changes nothing |
| Observer.ReplacedWidgetDetached | frontend/injection/observer.ts:186-189 | when the document held at most one widget (which `Inv` keeps), removing the widget and appending a fresh one leaves no node with the identity of an earlier widget |
| Observer.ReplyOutcome | frontend/injection/observer.ts:195-208 | a reply removes its call from the pending ones. A failed or empty reply, one whose target is detached, and a refresh reply arriving when the current document is null (the handler at lines 30-40 calls `createDisplay(null, …)`, which throws, and the rejection is caught) leave the document unchanged. Labels and container count never change |
| Observer.ReplyShowsRecord | frontend/injection/observer.ts:195-201 | a reply with a record replaces its attached target, where it stands, by a widget showing that record, whatever game is current by then |
| Observer.ReplyPreservesDocument | frontend/injection/observer.ts:195-201 | a reply keeps identities unique and at most one widget in the document |
| Observer.RefreshOutcome | frontend/injection/observer.ts:25-40 | no call when there is no document, no truthy current name or no widget; when all three are there, exactly one call is added, for the current name, the current document and the existing widget; nothing else changes |
| Observer.ExistingIsTarget | frontend/display/components.ts:84-86 | the widget `getExistingDisplay` returns has an identity already handed out, and a call capturing it finds a widget |
| Observer.ReplacedKeepsTarget | frontend/injection/observer.ts:200 | `replaceWith` keeps every other captured widget a widget or detached, and detaches the one it replaces |
| Observer.PassKeepsInv | frontend/injection/observer.ts:153-236 | a pass on a document keeps `Inv`; past the guards, every earlier call on the document finds its target detached, and the new call targets the new widget's identity |
| Observer.ShownKeepsInv | frontend/injection/observer.ts:179-218 | the statements after the guards, for any chosen container, keep `Inv`, detach the target of every earlier call on the document, and give the new call the new widget's identity |
| Observer.ReplyKeepsInv | frontend/injection/observer.ts:195-208 | a reply to a call on a document keeps `Inv` |
| Observer.RefreshKeepsInv | frontend/injection/observer.ts:25-40 | `refreshDisplay()` keeps `Inv`: a new call captures the existing widget of the current document |
| Observer.PassElsewhereKeepsInv | frontend/injection/observer.ts:153-236 | a pass on another document leaves `Inv` of a document as it was |
| Observer.ReplyElsewhereKeepsInv | frontend/injection/observer.ts:195-208 | a reply to a call on another document leaves `Inv` of a document as it was |
| Observer.ObserverState.constructor | frontend/injection/observer.ts:14-17 | all four module variables start null, with nothing pending |
| Observer.ObserverState.ResetState | frontend/injection/observer.ts:19-23 | `resetState()`: current name, lock and document become null; observer and pending calls stay |
| Observer.ObserverState.RefreshDisplay | frontend/injection/observer.ts:25-40 | `refreshDisplay()` is a no-op without a document and otherwise has the effect `RefreshOutcome` states |
| Observer.ObserverState.UpdateDisplayForApp | frontend/injection/observer.ts:191-209 | returns false and issues nothing without a widget; otherwise issues one call for the target name, capturing the widget |
| Observer.ObserverState.HandleGamePage | frontend/injection/observer.ts:153-177 | `handleGamePage(doc)` has exactly the effect `PassOutcome` states on state and document |
| Observer.ObserverState.ShowGame | frontend/injection/observer.ts:179-235 | the statements after the guards have exactly the effect `Shown` states; the "game changed during fetch" branch is unreachable |
| Observer.ObserverState.InsertLoading | frontend/injection/observer.ts:186-189 | `removeExistingDisplay(doc)` then `appendChild(createDisplay(undefined))`: the old widget is gone and a loading widget is the container's last child under the next identity; a widget then exists |
| Observer.ObserverState.ReplyArrives | frontend/injection/observer.ts:195-208 | the `then` handler of a pending call has exactly the effect `ReplyOutcome` states, on the state and the captured document |
| Observer.ObserverState.SetupObserver | frontend/injection/observer.ts:238-261 | `setupObserver(doc)` replaces the subscription by one on `doc`, then has the effect of one pass |
| Observer.ObserverState.OnMutation | frontend/injection/observer.ts:248-250 | the subscription callback has the effect of one pass on the observed document |
| Observer.ObserverState.DisconnectObserver | frontend/injection/observer.ts:263-268 | `disconnectObserver()` clears the subscription and nothing else |
| Observer.NavigationKeepsWidget | frontend/injection/observer.ts:186-192 | when the document held at most one widget (which `Inv` keeps), after a pass for A and a change of the name label only, A's loading widget is the one widget and A's call targets it |
| Observer.OnlyWidgetIsTarget | frontend/injection/observer.ts:192-200 | the one widget of a document is what a call capturing it finds |
| Observer.NewGameProceeds | frontend/injection/observer.ts:155-177 | with a container, a name other than the current one and the lock free, a pass gets past the guards |
| Observer.StaleReplyIgnored | frontend/injection/observer.ts:192-201 | when the document held at most one widget (which `Inv` keeps) and the call's target was a widget or detached, a reply to a call issued before a later pass changes nothing in the document |
| Observer.StaleReplyKeepsNewCall | frontend/injection/observer.ts:180-201 | after such a reply, the later pass's name is current and its call is still the last one pending |
| Observer.PassThenStaleReply | frontend/injection/observer.ts:179-208 | a pass past the guards, then the reply to a call that captured the only widget before it: the reply changes nothing, and the new loading widget and its call are what is left |
| Observer.NavigationDuringFetch | frontend/injection/observer.ts:153-218 | when the document held at most one widget (which `Inv` keeps): pass for A, navigation to B, pass for B, then A's reply: A's reply changes nothing, B is current, the only widget is B's loading widget, and B's call targets it |
| Licenses.TrimLines | webkit/index.tsx:81 | `map(line => line.trim())`: same length, each line trimmed |
| Licenses.KeepLinesMembers | webkit/index.tsx:82 | the filter keeps exactly the lines that are non-empty and not "Remove" |
| Licenses.KeepLinesClean | webkit/index.tsx:82 | filtering trimmed lines free of newlines leaves only clean lines |
| Licenses.KeptLinesClean | webkit/index.tsx:79-82 | every line left after trimming and filtering is non-empty, trimmed, not "Remove" and free of newlines |
| Licenses.CleanItemHasNoNewline | webkit/index.tsx:79-83 | a cleaned item never contains a newline |
| Licenses.JoinOfCleanLines | webkit/index.tsx:82-83 | joining such lines with spaces gives "" or a single line that is trimmed, not "Remove" and free of newlines |
| Licenses.CleanItemOfCleanLine | webkit/index.tsx:79-83 | cleaning such a line gives it back unchanged |
| Licenses.CleanItemIdempotent | webkit/index.tsx:79-83 | cleaning an item twice gives the same as cleaning it once |
| Licenses.CellText | webkit/index.tsx:77 | the date and acquisition text is trimmed; it is "" exactly when the text is null or blank |
| Licenses.ItemText | webkit/index.tsx:79-83 | the item text has no newline |
| Licenses.ItemTextClean | webkit/index.tsx:79-83 | the item text is already clean: cleaning it again changes nothing |
| Licenses.EntryOf | webkit/index.tsx:72-76 | a row gives an entry exactly when all three cells exist |
| Licenses.EntryOfWellFormed | webkit/index.tsx:76-85 | the entry a row gives has a trimmed date and acquisition and a clean, newline-free item |
| Licenses.PickedYieldCollected | webkit/index.tsx:69-87 | the collected values are exactly the values at the picked rows, in order |
| Licenses.PickedComplete | webkit/index.tsx:76 | every row that gives a value is picked |
| Licenses.CollectSnoc | webkit/index.tsx:85 | one more row adds its entry, if it has one, at the end |
| Licenses.CollectProvenance | webkit/index.tsx:69-87 | every collected entry comes from one row, rows in increasing order, and every row that gives an entry contributes it |
| Licenses.CollectTailProvenance | webkit/index.tsx:69-71 | the same as `CollectProvenance` for every element but the first, with positions counted in the whole sequence |
| Licenses.ParsedTable | webkit/index.tsx:66-89 | no rows give no entries; otherwise at most one entry per row after the header |
| Licenses.ParseRow | webkit/index.tsx:72-86 | the `forEach` callback body for one row pushes exactly the entry `EntryOf` gives, or nothing |
| Licenses.ParseLicenseTable | webkit/index.tsx:66-89 | the `forEach` loop returns exactly `ParsedTable` of the rows |
| Licenses.ParsedTableProvenance | webkit/index.tsx:69-86 | the header row never contributes; every entry comes from a complete later row, in row order; every complete later row contributes |
| Licenses.ParsedTableWellFormed | webkit/index.tsx:76-85 | every entry has a trimmed date and acquisition and a clean, newline-free item |
| Licenses.HeaderIgnored | webkit/index.tsx:71 | the header row's content never changes the result |

## Left out

- Logging (`log`, `logError`), CSS class names and the SVG `innerHTML` of the icon: they have no effect on the modelled state. The icon is an empty element.
- `formatTime` in frontend/display/components.ts: it uses floating-point arithmetic and is never called.
- The backend transport (`callable`) and `JSON.parse` of its payload are not modelled. A reply is an `Option<LicenseData>`; a rejected call, an empty payload, an unparsable payload and a falsy payload all map to none.
- Display.LicenseData: `date` is a string. A record without `date` renders as "undefined" in the template string, which the model does not represent.
- The `MutationObserver` mechanics and `observe` options are not modelled. The subscription is the observed document, `OnMutation` is its callback, and disconnecting sets it to null. The order in which the host fires mutations is left to the caller of the methods.
- The `try`/`catch` of `handleGamePage` is not modelled: no modelled document operation throws. The one throw that matters is `createDisplay(null)` in the handler of a refresh reply, and it is modelled as no change.
- Observer.DetectTooltipContainer: the `instanceof HTMLElement` cast branch always returns the element found, so the model returns the last match in every case.
- Dom.Find: `getElementById` searches only the children of the tooltip containers, because the widget is only ever inserted there.
- The document outside the name label and the containers' children is not modelled.
- The mapping of real HTML to rows is not modelled: `DOMParser`, `querySelector('table.account_table')`, `querySelectorAll('tr')` and the class selectors of the cells. A row is given as its three optional cells.
- `WebkitMain`, `fetchSteamLicenses` and the `setGameLicenseData` call in webkit/index.tsx are network and host I/O.
- frontend/index.tsx (settings UI, polling, popup callbacks) and frontend/components/ConsentModal.tsx are not part of this model.
- JsString.Trim: whitespace is the fixed set of ECMAScript WhiteSpace and LineTerminator code points, listed explicitly.
