# modal.js — a verified model of the dialog's state and dispatch rules

`modal.js` exports `modal(options)`, a factory for a modal dialog. It merges the
caller's options over a fixed defaults record, renders an overlay with a dialog
box, content and buttons, and returns the dialog, which is an event emitter.
A button click, a shortcut key or a click on the overlay itself emits the
configured event and then closes the dialog. Closing drops every listener,
unregisters the document key-up and window resize handlers, and fades the
overlay out before removing it from the document.

This project models that behaviour in Dafny:

- `options.dfy` (module `ModalOptions`): the options object, the defaults, and
  the shallow merge `$.extend({}, defaults, options)`. An option is `None` when
  its key is absent or holds `undefined`, because those are the values `$.extend`
  does not copy.
- `keytable.dfy` (module `Shortcuts`): the shortcut table. `KeyTable` is the
  specification. `BuildKeyTable` is the nested loop of the constructor, proved
  to compute it. The lemmas show that an entry names the last button that lists
  its code, and that no other entries exist.
- `centring.dfy` (module `Centring`): the top offset `handleResize` sets. A
  dialog shorter than the viewport gets equal margins above and below. A taller
  one, or one of exactly the viewport's height, keeps its offset. Heights are
  `int` and the offset is an exact `real`.
- `modal.dfy` (module `ModalDialog`): the `Modal` class. It holds the listener
  table, a log of every emit with the listeners it reached, the shortcut table,
  the content children, the `keyupRegistered`, `resizeRegistered` and
  `inDocument` flags, the count of fade-outs still due, and `top`. The browser's
  handlers are methods (`OnKeyup`, `OnButtonClick`, `OnOverlayClick`,
  `HandleResize`, `Close`). Separate methods (`DocumentKeyup`, `ClickButton`,
  `ClickOverlay`, `WindowResize`) model the browser firing an event, which
  reaches a handler only while that handler is registered. Click handlers are
  bound inside the overlay, and jQuery's `remove()` drops them with it, so clicks
  reach them only while the overlay is in the document. A few client methods
  restate scenarios from the repository's test file. Their postconditions state
  what those scenarios expect. Node content is placed as jQuery's `append`
  places a collection: one `appendChild` per node, which moves a node already
  placed, so a node listed twice ends up once, at its last position.

Measured values (`outerHeight(true)` of the dialog box, `window.innerHeight`)
are parameters. Listeners are identities: the model records which listeners an
emit reached, not what they do.

Where the widget's documentation and its tests promise more than `modal.js`
does, the model follows `modal.js`:

- `modal.js` emits no `beforeClose` or `close` event. It honours no
  `removeMethod: 'detach'`. Its `removeModal` always calls `el.remove()`
  (modal.js:94-102). The tests at test/modal.test.js:140-219 expect all three.
- Nothing guards `close` against a second call. A second close runs the
  teardown again and schedules another removal (`Modal.Close`).
- `modal.js` exposes no `centre()`. The test at test/modal.test.js:225-240 calls
  one. The model states the centring of the internal `handleResize` instead.
- With `clickOutsideToClose` false no overlay handler is bound. An outside
  click then emits nothing, as well as leaving the dialog open.
- A dialog taller than the viewport keeps its current top offset. That offset
  is 0 only at construction.

## Model

| member | source | states |
|---|---|---|
| `ModalOptions.Extend` | modal.js:53 | for each key, a value the source defines replaces the target's and an absent or `undefined` one keeps it; a complete target stays complete, and a complete source replaces the target entirely |
| `ModalOptions.Merge` | modal.js:40-54 | for each of the six option keys: a value the caller gives is the setting, and a key absent or `undefined` takes the default's value |
| `ModalOptions.ExtendFreshTarget` | modal.js:53 | extending the fresh `{}` yields a copy of the source, so the shared defaults are only read, never written |
| `ModalOptions.ExtendAssociative` | modal.js:53 | extending `{}` by the defaults and then by the options equals extending by the options laid over the defaults |
| `ModalOptions.MergeNoOptions` | modal.js:40-54 | `modal()` with no options is built from exactly the defaults record |
| `ModalOptions.MergeEveryKey` | modal.js:52-54 | options that give every key leave no default in the settings |
| `ModalOptions.MergeFalsyTitle` | modal.js:41-53 | a title of `''` or `false` still overrides the default title, since only `undefined` is skipped |
| `ModalOptions.MergeButtonsShallow` | modal.js:43-53 | a buttons array replaces the default buttons wholesale (the merge is shallow), even when it is empty |
| `Shortcuts.KeyTable` | modal.js:72-78 | the table after every button's codes were written in order; every entry is the index of an existing button |
| `Shortcuts.KeyTableDomain` | modal.js:72-78 | a code is in the table exactly when some button lists it |
| `Shortcuts.KeyTableEntryIsLast` | modal.js:72-78 | the button a table entry names lists that code, and no later button does |
| `Shortcuts.LastDeclarerInTable` | modal.js:72-78 | the last button that lists a code is the one the table sends the code to |
| `Shortcuts.KeyTableLastWins` | modal.js:72-78 | both directions: `keys[k] == i` exactly when button `i` lists `k` and no later button does |
| `Shortcuts.KeyTableSkipsUncoded` | modal.js:74 | a button without `keyCodes` contributes no entry and changes none |
| `Shortcuts.DefaultKeyTable` | modal.js:43-46 | with the default buttons the table is exactly `{27: 0}` |
| `Shortcuts.ShortcutEvent` | modal.js:110-113 | a key-up code yields no event exactly when no button lists it, and otherwise the event of the last button that lists it |
| `Shortcuts.DefaultShortcuts` | modal.js:43-46 | with the default buttons code 27 yields `cancel` and every other code yields nothing |
| `Shortcuts.BuildKeyTable` | modal.js:72-78 | the constructor's nested loop computes exactly `KeyTable` of the buttons |
| `Centring.CentredTop` | modal.js:83-88 | a dialog shorter than the viewport gets a positive top with equal margins above and below and fits inside; otherwise (equality included) the top is unchanged |
| `Centring.CentredTopUnique` | modal.js:83-88 | the equal-margins offset is the only one that centres the dialog |
| `Centring.CentredTopIdempotent` | modal.js:83-88 | resizing again with the same heights moves nothing |
| `Centring.CentredTopExample` | test/modal.test.js:225-240 | a 100px dialog in a 1000px viewport gets top 450 |
| `ModalDialog.PlaceContent` | modal.js:64-68 | string content becomes exactly one paragraph holding that text; node content (a jQuery object, an array of nodes, a fragment's children) is appended node by node, and since `appendChild` moves a node already placed, the children are the content's nodes, each as itself, once, in the order of their last occurrences (`LastOccurrences`), which is the collection's own order when no node repeats; `false`, `null` and `NaN` append nothing |
| `ModalDialog.PlaceContentInjective` | modal.js:64-68 | equal placements come from equal string contents; node contents that place alike have the same last occurrences, and are equal when neither repeats a node |
| `ModalDialog.LastOccurrences` | modal.js:67 | the nodes a collection places are exactly the collection's nodes |
| `ModalDialog.LastOccurrencesDistinct` | modal.js:67 | no node is placed twice |
| `ModalDialog.LastOccurrencesOrder` | modal.js:67 | placed nodes are ordered by the position of their last occurrence in the collection |
| `ModalDialog.LastOccurrencesOfDistinct` | modal.js:67 | a collection without a repeated node is placed exactly as it is |
| `ModalDialog.LastIndexIsLast` | modal.js:67 | no occurrence of a node follows the position `LastIndex` gives |
| `ModalDialog.AppendChild` | modal.js:67 | one `appendChild`: the node ends up last and only there, and every other node of the fragment stays |
| `ModalDialog.AppendAllKeepsLast` | modal.js:67 | appending a collection node by node leaves the fragment's other nodes in front, followed by each appended node once, where it last occurs |
| `ModalDialog.PlaceNodes` | modal.js:67 | the children of a node collection are its last occurrences, the collection itself when no node repeats, and each child is one of its nodes and each node a child |
| `ModalDialog.PlaceContentRepeatedNode` | modal.js:67 | `[a, a]` places `a` once and `[a, b, a]` places `b, a` |
| `ModalDialog.Modal.constructor` | modal.js:56-157 | the table is `KeyTable` of the buttons, the content is placed, no listeners, key-up and resize registered, overlay in the document, top at its rest position |
| `ModalDialog.Modal.On` | modal.js:160 | a listener is appended after the earlier listeners of its event |
| `ModalDialog.Modal.Emit` | modal.js:160 | an emit reaches the listeners of that event, in registration order |
| `ModalDialog.Modal.RemoveAllListeners` | modal.js:99 | the listener table is empty afterwards |
| `ModalDialog.Modal.Close` | modal.js:94-105 | afterwards there are no listeners, key-up and resize are unregistered, and one more removal is due; nothing else changes |
| `ModalDialog.Modal.FinishRemoval` | modal.js:95-97 | the fade-out's completion takes the overlay out of the document |
| `ModalDialog.Modal.HandleResize` | modal.js:83-88 | the new top is `CentredTop` of the measured heights and the old top |
| `ModalDialog.Modal.WindowResize` | modal.js:155 | a resize recentres only while the handler is registered |
| `ModalDialog.Modal.OnKeyup` | modal.js:110-116 | a listed code emits exactly the last listing button's event, reaching the listeners registered before the close, then closes; an unlisted code changes nothing |
| `ModalDialog.Modal.DocumentKeyup` | modal.js:126 | a document key-up reaches the handler only while it is registered, so after a close it changes nothing |
| `ModalDialog.Modal.OnButtonClick` | modal.js:120-123 | clicking button `i` emits `buttons[i].event` to its listeners before they are removed, then closes |
| `ModalDialog.Modal.ClickButton` | modal.js:119-124 | a click on rendered button `i` acts while the overlay is in the document and changes nothing after its removal |
| `ModalDialog.Modal.OnOverlayClick` | modal.js:130-135 | a click whose target is the overlay itself emits `clickOutsideEvent` and closes; a click on a descendant changes nothing |
| `ModalDialog.Modal.ClickOverlay` | modal.js:129-136 | without `clickOutsideToClose` no handler is bound, so an outside click emits nothing and leaves the dialog open |
| `ModalDialog.NewModal` | modal.js:52-54 | `modal(options)` builds a fresh dialog from `Merge(options)` |
| `ModalDialog.DefaultButtonClick` | test/modal.test.js:343-357 | with defaults, button 0 reaches the `cancel` listeners and button 1 the `confirm` listeners, then key-up and resize are unregistered |
| `ModalDialog.DefaultKeyup` | test/modal.test.js:358-361 | with defaults, key-up 27 reaches the `cancel` listeners and closes; another code emits nothing and keeps the handler |
| `ModalDialog.OutsideClick` | test/modal.test.js:265-313 | only an overlay-target click with `clickOutsideToClose` set emits the default `cancel` and closes |
| `ModalDialog.CloseThenRemove` | modal.js:94-102 | after a close and the fade-out the overlay is gone; clicks, key-ups and resizes do nothing and a later emit reaches no listener |
| `ModalDialog.ContentPlacement` | test/modal.test.js:53-67 | string content yields one paragraph with that text; a single node is that very node; several nodes are placed once each where they last occur, in their own order when none repeats |
| `ModalDialog.HandleResizeExample` | test/modal.test.js:225-240 | a dialog at top 0, measured at 100px in a 1000px viewport, is moved to top 450 |

## Left out

- Template rendering (`modal-template`): the title, button, icon and controls markup. The template is not part of this model. The model assumes only that one button is rendered per configured button, in order.
- `modal.addClass(settings.className)` (modal.js:70): applying space-separated class names is jQuery's DOM handling.
- Animations and timers: the fade-in, the 10px overshoot before the rest position, the slide-out towards `window.innerHeight` (modal.js:98) and every duration. The constructor's `top` is the rest position the entrance transition ends at. The fade-out's completion is the separate step `FinishRemoval`.
- Node's `EventEmitter` internals (modal.js:39, 160): the throw on an `error` event without listeners, the `newListener` event, and the listener-count limit.
- ModalDialog.Modal.constructor and ModalDialog.Modal.Emit: the listener table is per dialog, whereas `modal.js:160` makes one `Emitter` object the prototype of every dialog and never runs the `Emitter` constructor on an instance. So every `on` of every dialog writes into that one prototype table, and a dialog's own empty table appears only when its close calls `removeAllListeners`. The prototype table keeps every listener registered before any close, and every later dialog's `emit` of that name reaches them. For example, the `confirm` listener of a cancelled dialog runs when a later dialog is confirmed. So the constructor's empty `listeners` holds in the source only until some dialog registers a listener, and `Emit` here reaches only the dialog's own listeners.
- Number and `true` content: `modal.js:67` passes any non-string to jQuery's `append`, which turns numbers (`0` included) and `true` into text nodes. `Content` has no case for them, so that placement is not modelled.
- ModalDialog.PlaceContentInjective: equal placements give equal node contents only when neither repeats a node, because `append` places `[a]` and `[a, a]` alike; for repeated nodes it promises equal last occurrences.
- What listeners do when called: the model records which listeners each emit reached.
- Option keys that `modal.js` never reads (`fx`, `removeMethod`): `$.extend` copies them, but nothing uses them.
- A button without an `event`: `emit(undefined)` reaches the listeners of the name `"undefined"`. A caller of the model passes that name.
- Shortcut table keys: `modal.js` keys the table by the string `keyCode + ''`. The model keys it by the integer code, which is the same table for integer codes. A `keyCodes` value that is truthy but not an array is not modelled.
- `pliers.js` (a build task that compiles the template file) and `test/register-jade-extension.js` (a `require` hook): file I/O and test plumbing.
- `ModalDialog.Modal.FinishRemoval`: requires that a close scheduled a removal, because the fade-out's callback exists only after one.
