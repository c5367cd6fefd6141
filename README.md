# AI Studio Code Uploader — a verified model

This is a Dafny model of the core of a browser extension for AI Studio. On that site, the extension renames source-code files to `.txt` before upload, so that the page accepts them. The model covers two scripts.

**`content-script.js`**
- **Extension classifier.** A name's extension runs from its last `.` to the end, lower-cased. That dot must not be the first character. The name matches when the extension is one of the 34 fixed supported extensions.
- **`renameFileToTxt`.** It keeps the base name and appends `.txt`. Content and `lastModified` are unchanged, and the type becomes `text/plain`.
- **`handleFileInputChange`.** It walks the selection in order, renames the files that match, raises `filesModified` and collects one `{original, newName}` record per rename. When something changed it:
  - replaces `input.files`;
  - sends the records;
  - dispatches `input` and `change`;
  - schedules one more `input`.
- **Once-only attachment.** The source has three identical copies of it. Each installs the `change` and `input` listeners and wraps the `files` setter, guarded by `dataset.codeUploaderAttached`.
- **Page sweep and observer walk.** The sweep attaches to every file input on the page. The MutationObserver walk attaches to each added file input and to every file input below an added element.
- **`initialize` and the `toggleExtension` message handler.**

**`popup/popup.js`**
- **Adding a custom extension:** trim, normalise, validate against `^\.[a-z0-9]+$`, reject defaults and duplicates, append.
- **Removing** one.
- **Parsing** the comma-separated target selectors.
- **The values the panel shows on opening.**

Modules:
- `Strings`: the JavaScript string operations used (`lastIndexOf`, ASCII `toLowerCase`, `trim`, `split`, `join`). `trim` removes the ECMAScript WhiteSpace and LineTerminator characters.
- `Extensions`: the classifier.
- `Files`: the file record and the renamer.
- `Rebinder`: the classify/rename/record loop.
- `Control`: one file input as a class. The handler, the setter and the dispatch are mutually recursive methods.
- `Watcher`: the node tree, the attachment walks and the content script's start-up and messages.
- `Settings`: values read back from storage.
- `Popup`: the settings-list logic.

## Re-entry

The handler re-enters itself in two ways:
- Its assignment to `input.files` runs the wrapped setter, which calls the handler again (content-script.js:76, 124-128).
- Its own `input` and `change` events reach its own listeners (content-script.js:95-96, 114-115).

`Control.FileInput` models this with three mutually recursive methods: `HandleChange`, `AssignFiles` and `Dispatch`. Termination is proved from the number of matching files. That number drops to zero after one pass, because a renamed file ends in `.txt` and `.txt` is not supported (`Rebinder.ProcessedHasNoMatch`).

The methods are proved against the pure state functions `AfterChange`, `AfterAssign` and `AfterDispatch`. Lemmas about those functions state:
- the handler is idempotent;
- one user selection on an attached input produces exactly one records message and the events `input, input, change, change`;
- the delayed `input` only adds to the event log.

## Behaviour worth knowing

- **34 extensions.** The supported set has 34 entries (content-script.js:13-18), the same list as the popup's defaults (popup/popup.js:21).
- **No custom extensions in the classifier.** The classifier uses the fixed set only (content-script.js:62). Custom extensions stored by the popup are never read by the content script.
- **No custom selectors in discovery.** The content script never reads the stored target selectors.
- **Records.** A record is `{original, newName}`, with no timestamp (content-script.js:66). The popup reads `originalName`, which the content script never sets (popup/popup.js:211).
- **No detach.** `toggleExtension` with `enabled: false` detaches nothing (content-script.js:243-247).
- **Observers accumulate.** Each enabling message registers one more MutationObserver. Every observer then runs the callback on each mutation batch (`Watcher.ContentScript.observers`).

## Model

| member | source | states |
|---|---|---|
| Strings.LastIndexOfSpec | content-script.js:27 | `lastIndexOf` returns -1 or an index holding the character, and no later index holds it |
| Strings.LowerIsLowerCase | content-script.js:60 | lower-casing leaves no upper-case ASCII letter and is idempotent |
| Strings.TrimSpec | popup/popup.js:78 | `trim` returns a trimmed contiguous piece of its input, with only whitespace cut away on both sides; trimming again changes nothing |
| Strings.JoinSplit | popup/popup.js:176 | joining the pieces of `split(sep)` with `sep` restores the input |
| Strings.SplitJoin | popup/popup.js:176 | splitting a join of separator-free pieces returns exactly those pieces |
| Extensions.ExtensionExists | content-script.js:59-60 | a name has a non-empty extension iff it holds a `.` at an index greater than 0 |
| Extensions.ExtensionSuffix | content-script.js:59-60 | the extension is the lower-cased suffix from the last `.`; that dot is not first, and the suffix holds no other `.` |
| Extensions.NoQualifyingDotNeverSupported | content-script.js:59-62 | a name without a dot, or whose only dot is at index 0 (`.bashrc`), has an empty extension and is never renamed |
| Extensions.SupportedIgnoresCase | content-script.js:60-62 | extension and match are the same for a name and its lower-cased form, so `c.CPP` is treated like `c.cpp` |
| Extensions.TxtNotSupported | content-script.js:13-18 | `.txt` is not among the supported extensions |
| Extensions.TxtNameNotSupported | content-script.js:31 | any name ending in `.txt` is never renamed |
| Files.BaseNameSpec | content-script.js:27-30 | the base name is the whole name, or the proper prefix before a last `.` that is not first; it is a proper prefix exactly when the name holds a `.` after its first character |
| Files.RenameSpec | content-script.js:25-41 | the renamed file keeps content and `lastModified`, has type `text/plain`, and its name is the base name followed by `.txt`; for a supported file, the name is base name plus extension |
| Files.RenamedNeverSupported | content-script.js:13-18 | a renamed file never matches again |
| Files.RenameTestPy | tests/extension.spec.js:40-48 | `test.py` is renamed to `test.txt` with the same content and time |
| Rebinder.Rebind | content-script.js:54-71 | the loop returns the selection processed file by file, the `filesModified` flag and the records, each equal to its specification function |
| Rebinder.AnyMatchIffCount | content-script.js:56-65 | `filesModified` is set iff the number of renamed files is positive |
| Rebinder.RecordsCount | content-script.js:66 | there is exactly one record per renamed file, and none iff no file matched |
| Rebinder.RecordsNameRenamedFiles | content-script.js:66 | every record gives the old and new name of a renamed file of the selection |
| Rebinder.RecordsAppend | content-script.js:58-71 | records are collected in selection order: those of `a + b` are those of `a`, then those of `b` |
| Rebinder.ProcessedAppend | content-script.js:58-71 | processing keeps order: the processed `a + b` is processed `a`, then processed `b` |
| Rebinder.ProcessedHasNoMatch | content-script.js:13-18 | after processing, no file matches, processing again is the identity and yields no records |
| Rebinder.MixedSelection | content-script.js:58-71 | `[a.md, b.png, c.CPP]` becomes `[a.txt, b.png, c.txt]` with records for `a.md` and `c.CPP` only |
| Control.ChangeSpec | content-script.js:48-103 | nothing changes iff no file matches, and in particular for an empty selection; otherwise the collection is processed, one non-empty records message is sent, `input` and `change` are dispatched and one `input` is scheduled |
| Control.ChangeIdempotent | content-script.js:124-128 | handling a collection a second time changes nothing |
| Control.ChangeLeavesNoMatch | content-script.js:76 | after the handler no file in the collection matches |
| Control.AssignSpec | content-script.js:124-129 | the setter stores the value; only a wrapped setter with a non-empty value runs the handler, and without a match it only stores |
| Control.UserSelectAttached | content-script.js:95-101 | a user selection on an attached input yields the processed files; on a match it adds exactly one message, events `input, input, change, change` and one pending `input`; otherwise it adds only the browser's two events |
| Control.UserSelectDetached | content-script.js:112 | a selection on an input that was never attached is left alone and nothing is sent |
| Control.DelayedInputHarmless | content-script.js:99-101 | the delayed `input` event only adds itself to the event log |
| Control.FileInput.constructor | content-script.js:112 | a fresh input is empty, consistent and unattached |
| Control.FileInput.HandleChange | content-script.js:48-103 | the input's new state is `AfterChange` of its old state; attachment is untouched |
| Control.FileInput.AssignFiles | content-script.js:76 | the new state is `AfterAssign` of the old state and the value |
| Control.FileInput.Dispatch | content-script.js:95-96 | the event is logged, and the handler runs when a listener for it is installed |
| Control.FileInput.Attach | content-script.js:111-135 | afterwards the input is attached with both listeners and, when available, the wrapped setter; an input already marked is left unchanged; files, events and messages are unchanged |
| Control.FileInput.UserSelect | content-script.js:114-115 | the browser stores the selection and fires `input`, then `change`, to whatever listeners are installed |
| Control.FileInput.RunTimer | content-script.js:99-101 | the oldest pending event is dispatched and removed from the queue; with none pending nothing changes |
| Control.SelectTestPy | tests/extension.spec.js:36-49 | a user picking `test.py` on an attached input ends with `[test.txt]` and the single record `test.py → test.txt` |
| Control.AssignTestJs | tests/extension.spec.js:51-69 | a page assigning `test.js` to an attached input ends with `[test.txt]` and the single record `test.js → test.txt` |
| Watcher.InputsOfNode | content-script.js:150-176 | a node's file inputs are the node itself, when it is one, followed by its descendants |
| Watcher.InputsAppend | content-script.js:110 | the file inputs of a concatenated forest are those of its parts, in document order |
| Watcher.TargetsCover | content-script.js:145-203 | the added file input itself and every file input below an added element are among the batch's targets |
| Watcher.AttachAll | content-script.js:110-136 | every input found is attached; inputs already attached are unchanged; no input's files, events or messages change |
| Watcher.AttachNode | content-script.js:148-201 | an added file input is attached itself, every file input below an added element is attached, and non-elements are skipped |
| Watcher.AttachAdded | content-script.js:147-203 | every file input reached from the added nodes of one record is attached, with nothing else changed |
| Watcher.ObserveBatch | content-script.js:144-206 | after the callback every target of the batch is attached, and attached inputs are left unchanged |
| Watcher.ContentScript.constructor | content-script.js:218-222 | no observer is registered before `initialize` runs |
| Watcher.ContentScript.Initialize | content-script.js:218-238 | unless the stored flag is exactly `false`, every page input is attached and one observer is registered; otherwise nothing changes |
| Watcher.ContentScript.OnMessage | content-script.js:241-249 | only `toggleExtension` is answered; enabling sweeps the page and adds one observer; disabling and other actions change nothing |
| Watcher.ContentScript.OnMutations | content-script.js:208-211 | with at least one observer registered, every target of the batch is attached; with none, nothing changes |
| Settings.EnabledByDefault | content-script.js:220 | the extension is off iff the stored value is the boolean `false`; a missing, `true` or non-boolean value leaves it on |
| Popup.DefaultsAgree | popup/popup.js:21 | the popup's default list equals the content script's supported set, in the same order |
| Popup.DefaultsAreValid | popup/popup.js:85 | every default extension passes the popup's own validation |
| Popup.NormalizeSpec | popup/popup.js:82 | the normal form is lower-case and starts with exactly one dot, the supplied one or one added, with the rest lower-cased; normalising again is the identity |
| Popup.NormalizeDiff | popup/popup.js:82 | `Diff` normalises to `.diff` |
| Popup.AddBlank | popup/popup.js:78-79 | input that is blank after trimming leaves list and input field unchanged |
| Popup.AddSpec | popup/popup.js:77-124 | an extension is added iff the trimmed input is non-empty and its normal form is valid, not a default and not present; it is appended at the end; every other outcome leaves the list unchanged; invalid and default inputs are classified as such; only blank or invalid input keeps the field |
| Popup.DefaultRejected | popup/popup.js:78-95 | any input whose trimmed, normalised form is a default (so in any letter case, with or without the dot) is rejected as a default, the list unchanged and the field cleared |
| Popup.AddKeepsWellFormed | popup/popup.js:101-108 | adding keeps the stored list duplicate-free, valid and free of defaults |
| Popup.RemoveSpec | popup/popup.js:129 | removal yields exactly the entries other than the argument; an absent argument changes nothing |
| Popup.RemoveAppend | popup/popup.js:129 | removal keeps order: removing from `a + b` is removing from `a`, then from `b` |
| Popup.AddThenRemove | popup/popup.js:108-129 | removing the extension just added restores the previous list |
| Popup.RemoveKeepsWellFormed | popup/popup.js:129 | removal keeps the stored list well formed |
| Popup.NonEmptyAppend | popup/popup.js:176 | `filter(Boolean)` works piece by piece: filtering `a + b` is filtering `a`, then `b`, so the kept pieces stay in order |
| Popup.ParseKeepsPiece | popup/popup.js:175-176 | every comma-separated piece that is not blank after trimming appears, trimmed, in the parse, after the selectors of the pieces before it and before those of the pieces after it |
| Popup.ParsedAreSelectors | popup/popup.js:175-176 | every parsed selector is non-empty, trimmed and free of commas |
| Popup.SelectorsRoundTrip | popup/popup.js:174-176 | parsing the `", "`-joined display of valid selectors returns them unchanged, in order |
| Popup.ParseIdempotent | popup/popup.js:174-176 | parsing the display of a parsed list gives that list again |
| Popup.LoadPanelDefaults | popup/popup.js:31-42 | the panel shows enabled unless the stored flag is `false`, and empty lists for missing stored lists |
| Popup.LoadThenSave | popup/popup.js:40-41 | saving the selectors the panel shows on opening stores the loaded list |

## Left out

- **Extension APIs.** `chrome.runtime.sendMessage`, `onMessage` plumbing, `chrome.storage` and `chrome.tabs` are I/O.
  - Stored values and incoming messages are parameters.
  - A sent message is an entry appended to `sent`.
  - A delivery failure is discarded by the source and is not modelled.
- **`updateExtensions` and `updateSelectors`** (popup/popup.js:114-121, 135-142, 180-187). The popup sends these, but the content script has no handler for them, so they have no effect in the model.
- **Timing.** `setTimeout` delays are not modelled as time.
  - The delayed `input` is a queue entry that `Control.FileInput.RunTimer` fires.
  - MutationObserver scheduling is a direct call of `Watcher.ContentScript.OnMutations`.
- **The click heuristic** (content-script.js:225-235) depends on CSS selector matching. The page sweep it triggers is `Watcher.AttachAll`.
- **The host check** (content-script.js:253) is a substring gate around `initialize`.
- **The fallback `defineProperty`** (content-script.js:77-84) is not modelled separately. Either way `files` becomes the new collection, and the model shows only the direct assignment through the setter.
- **A missing `input.files`** (content-script.js:50). It is not modelled, because a file input in the model always has a (possibly empty) collection. The empty case is modelled.
- **Loose stored values.** The popup's `data.key || []` for a stored value that is not an array is not modelled. Stored lists are optional sequences.
- **UI.** Rendering and messages are not modelled: list rendering, `alert`, the "Saved!" timer and the rename-log display (popup/popup.js:147-237).
- **Popup handlers.** The handlers that wire buttons, toggles and key presses to these functions (popup/popup.js:51-75, 172) are not modelled.
- **Other files.** `background.js` and the Playwright tests are not part of this model. The tests' expected outcomes are restated as `Control.SelectTestPy` and `Control.AssignTestJs`.
- **Lower-casing.** `toLowerCase` is modelled on ASCII letters only. Non-ASCII case mappings, such as the Kelvin sign lower-casing to `k`, are not modelled.
- **Aliasing between inputs.** The page is a tree of nodes, each file input a distinct object reached through it. The effect of one input's handler on another input is not modelled, since the source has none.
