# rbxplore core, modelled in Dafny

This project models the editing core of rbxplore, a viewer and editor for
Roblox place and model files:

- **History** (`action/action.go`, the `historyStack`): a fixed-capacity ring
  of recorded actions. It has three cursors (`head`, `tail`, `cur`) and two
  flags ("something to undo", "something to redo"). The contracts relate the
  ring to two abstract lists: the entries Undo would return, oldest first,
  and the entries Redo would return, next first.
- **Actions** (`action/action.go`, the `Controller`): calls `Setup`, then
  `Forward`, then pushes on `Do`; calls `Backward` or `Forward` on `Undo` and
  `Redo`. Every call takes the document and returns the document and the
  error.
- **Commands** (`cmd/cmd.go`): the seven reversible edits of the root list and
  the instance tree, each with `Setup`, `Forward` and `Backward`.
- **Tree**: the rbxfile instance tree the commands edit. It is id-indexed, and
  an id missing from the node map stands for a nil pointer. `SetParent` and
  `AddChildAt` come from the rbxfile library, which is not part of this model.
  They are written as stated assumptions: refuse self-parenting and cycles,
  otherwise detach from the old parent and then append to, or insert into,
  the new one.
- **Settings** (`settings/settings.go`): a typed store whose key set is fixed
  at creation. `Set` and the merge done by `load` replace a value only with
  one of the same kind: string, float64 or bool.
- **Session** (`session.go`): the `Format` enumeration and its names, the
  format list adapter, the guess of a format from the file extension, and the
  checks made before any file I/O.
- **Events** (`event/event.go`): the ordered listener list of the synchronous
  event, with Connect, unlisten, Fire and Disconnect. Also the same removal
  on the asynchronous event.
- **FileSelect** (`file_select_ctx.go`): the two `ItemIndex` lookups of the
  file dialog.
- **Wrappers** and **Seqs** are shared helpers: `Option`, `Result` and
  `Fault`, plus list removal, insertion and search.

Go errors become `Fail(Error(msg))`. Go panics become `Fail(Panic(msg))`, so
every operation stays total. `NoAction` is the controller's sentinel error.

`Controller.Do` returns a `Forward` error before pushing
(`action/action.go:119-122`), so only a successful edit is recorded;
`Actions.Do` does the same.

`actionSetReference` declares `newRef` and `oldRef` as `string`, but the
constructor stores a `[]byte` in `newRef` (`cmd/cmd.go:98-108`). The model
treats the reference as a byte sequence throughout.

## Model

| member | source | states |
|---|---|---|
| History.Create | action/action.go:101-107 | A fresh history of size n satisfies the ring invariant and has nothing to undo and nothing to redo |
| History.Do | action/action.go:29-62 | Recording keeps the ring invariant, stores the action at the old `cur`, sets `ud` and clears `rd`, advances `cur` and `tail` by one modulo the capacity, and advances `head` only when `head == tail` with `ud` set |
| History.Undo | action/action.go:64-77 | Undo keeps the ring invariant, the slots and `head`. With something to undo, one entry moves from the undo count to the redo count; with nothing to undo, it returns nothing and changes nothing |
| History.Redo | action/action.go:79-92 | Redo keeps the ring invariant, the slots and `head`. With something to redo, one entry moves from the redo count to the undo count; with nothing to redo, it returns nothing and changes nothing |
| History.NextIsSuccessorMod | action/action.go:54-57 | The increment-then-reset-to-0 step is the successor modulo the capacity |
| History.DoRefines | action/action.go:29-62 | Do appends the action to the undo list, evicting the oldest entry first when the ring is full (pending redo entries count toward fullness), and empties the redo list |
| History.UndoRefines | action/action.go:64-77 | Undo with an empty undo list returns nothing and changes nothing; otherwise it returns the newest undo entry and moves it to the front of the redo list |
| History.RedoRefines | action/action.go:79-92 | Redo with an empty redo list returns nothing and changes nothing; otherwise it returns the next redo entry and moves it to the end of the undo list |
| History.FreshHasNothing | action/action.go:64-92 | On a fresh history both Undo and Redo return nothing |
| History.UndoThenRedoRestores | action/action.go:64-92 | Undo then Redo returns the same action both times and restores the ring exactly, cursors and flags included |
| History.RedoThenUndoRestores | action/action.go:64-92 | Redo then Undo returns the same action both times and restores the ring exactly |
| History.DoInvalidatesRedo | action/action.go:36-51 | After an Undo, a Do discards the redo range, so the Redo that follows returns nothing |
| History.DoAfterUndoOnFullRingEvicts | action/action.go:30-51 | On a completely full ring, Undo then Do still evicts the oldest entry, because the fullness test runs before redo entries are discarded; n-1 entries remain undoable |
| History.DoAllAppends | action/action.go:29-62 | While the ring has room, recording a list of actions appends them to the undo list in order and leaves nothing to redo |
| History.UndonePops | action/action.go:64-77 | After k Undo calls, the k newest entries have left the undo list and the older ones stay undoable in order |
| History.UndoResultsPop | action/action.go:64-77 | k Undo calls return the newest k undo entries, newest first |
| History.UndoAllReversed | action/action.go:64-77 | Undoing as many times as there are undo entries returns the whole undo list in reverse and clears `ud` |
| History.DoThenUndoReversed | action/action.go:52-77 | On a fresh history of capacity n, k <= n recordings followed by k Undo calls return the actions in reverse order, and the last Undo clears `ud` |
| Actions.CreateController | action/action.go:101-107 | A new controller's ring has the requested capacity, and its undo and redo lists are empty |
| Actions.Do | action/action.go:109-124 | Nil gives `NoAction`. A Setup failure returns Setup's error, and a Forward failure returns Forward's error, each with the document and history unchanged. Success happens exactly when Setup and Forward succeed and the capacity is non-zero. The undo list is then the old one, without its oldest entry when the ring was full, followed by the set-up command, and nothing is left to redo. Capacity 0 returns the edited document with an index-out-of-range panic and the history unchanged |
| Actions.Undo | action/action.go:126-135 | `NoAction` exactly when nothing can be undone. Otherwise the newest entry moves to the redo list even when its Backward fails; the document is Backward's result, or unchanged together with Backward's error |
| Actions.Redo | action/action.go:137-146 | `NoAction` exactly when nothing can be redone. Otherwise the next entry moves to the undo list even when its Forward fails; the document is Forward's result, or unchanged together with Forward's error |
| Actions.FreshControllerHasNothing | action/action.go:126-146 | On a new controller, Undo and Redo both return `NoAction` |
| Actions.DoUndoRedo | action/action.go:109-146 | In a well-formed tree, Undo after a successful Do restores the document before the Do. The following Redo restores both the document and the controller as they were right after the Do |
| Actions.UndoRedoLast | action/action.go:126-146 | When the newest undo entry's Forward and Backward take a document there and back, Undo restores the document and the Redo that follows restores both the document and the controller |
| Actions.DoLeavesNothingToRedo | action/action.go:109-124 | After a successful Do, Redo returns `NoAction` |
| Commands.Setup | cmd/cmd.go:20-209 | Setup keeps the command kind and target. Only RemoveRoot and SetParent can return an error, and a nil target panics. RemoveRoot captures the root at the index, the field edits capture the current field value, SetParent captures the current parent and the instance's position among that parent's children, and SetProperty captures the current value when the key exists |
| Commands.Forward | cmd/cmd.go:20-223 | Every command other than AddRoot and RemoveRoot, SetParent included, leaves the root list unchanged; every command other than SetParent leaves the set of instances unchanged |
| Commands.Backward | cmd/cmd.go:20-223 | Every command other than AddRoot and RemoveRoot, SetParent included, leaves the root list unchanged when undone |
| Commands.AddRootRoundTrip | cmd/cmd.go:24-33 | Forward appends the instance at the end of the root list and keeps the earlier entries; Backward then gives the original document back |
| Commands.AddRootBackwardDropsLast | cmd/cmd.go:29-33 | Backward drops whatever is last: after a second instance has been appended, undoing the first AddRoot removes the second instance |
| Commands.RemoveRootSetupChecksRange | cmd/cmd.go:47-53 | Setup fails with "index out of range" exactly when the index is negative or at least the list length; otherwise it captures the instance at that index |
| Commands.RemoveRootRoundTrip | cmd/cmd.go:55-67 | Forward deletes the element at the index and keeps the others in order; Backward re-inserts the captured instance at the same index, restoring the document |
| Commands.FieldEditsTouchOneField | cmd/cmd.go:81-123 | For SetClassName, SetReference and SetIsService, Forward writes the new value and Backward the captured old one; no other field of the instance, no other instance and not the root list changes |
| Commands.FieldEditRoundTrip | cmd/cmd.go:176-189 | For SetClassName, SetReference and SetIsService, Backward after Forward restores the document |
| Commands.SetParentSetupRecords | cmd/cmd.go:138-150 | Setup records the old parent and the first index of the instance among that parent's children. It fails with "instance is not a child of parent" exactly when the instance is not among them. With no parent there is no search |
| Commands.SetParentRoundTrip | cmd/cmd.go:152-162 | In a well-formed tree, Backward after a successful Forward restores the document exactly. This covers the same parent (re-inserted in place), a new parent, and no parent, and the root list is never touched |
| Commands.SetPropertyRoundTrip | cmd/cmd.go:204-223 | Setup saves the old value exactly when the key exists. Forward writes the new value. Backward deletes a key that was absent and otherwise restores the saved value, giving back the original document |
| Commands.ForwardBackwardRestores | action/action.go:17-19 | For every command built by its constructor, in a well-formed tree: once Setup and Forward succeed, Backward restores the document exactly |
| Tree.SetParent | cmd/cmd.go:152-154 | A successful reparenting sets the instance's parent, keeps the root list, and makes the instance the last child of a new parent |
| Tree.AddChildAt | cmd/cmd.go:160 | Re-adding refuses exactly a nil parent or instance, self-parenting and a cycle, with an error only for the last two. On success the instance set and root list are kept, the parent link is set, and the instance sits among the parent's children at the index clamped to the list |
| Tree.ReturnToNoParent | cmd/cmd.go:156-158 | An instance without a parent that was given one returns to having none, and the new parent's children lose the appended entry |
| Tree.ReinsertInPlace | cmd/cmd.go:159-161 | Re-inserting an instance under its current parent at its current index changes nothing |
| Tree.ReturnToOldParent | cmd/cmd.go:152-162 | An instance moved away from its parent and then added back to that parent at its old index gives the original tree |
| Settings.TypesMatch | settings/settings.go:108-126 | True exactly when both values are strings, both float64, or both bools; any other kind for either side gives false |
| Settings.Create | settings/settings.go:244-260 | Succeeds exactly when every initial value is a string, float64 or bool, storing the map as given; otherwise panics |
| Settings.Get | settings/settings.go:194-199 | The stored value, or nil for an unknown name |
| Settings.Gets | settings/settings.go:201-210 | A separate map with the same keys, each holding what Get returns |
| Settings.Set | settings/settings.go:212-230 | Succeeds exactly when the name exists and the value has the same kind. On failure nothing changes. On success only that name's value changes, and the key set never changes |
| Settings.Merge | settings/settings.go:141-150 | The load merge keeps the key set, and every value is either the current one or a decoded value of the same kind |
| Settings.MergeReplacesMatchingKinds | settings/settings.go:141-150 | The load merge keeps the key set; it replaces a value exactly when the decoded map has a value of the same kind for that name, and skips unknown names |
| Settings.MergeLoop | settings/settings.go:141-150 | The entry-by-entry merge loop, in any iteration order, produces the merged store |
| Settings.SetAndMergeKeepKinds | settings/settings.go:212-230 | Set and the load merge keep every value's kind, so a well-typed store stays well typed |
| Session.Name | session.go:31-45 | The name is empty exactly for formats other than the five known ones |
| Session.FormatFromString | session.go:47-61 | The result is FormatNone or a known format, and a known result is the one whose name is the lower-cased string |
| Session.NameRoundTrip | session.go:31-61 | Reading back the name of any format from FormatNone to FormatJSON gives that format |
| Session.FromStringInverse | session.go:47-61 | A recognised string is, after lower-casing, the name of its format; every other string, "" included, gives FormatNone |
| Session.FromStringIgnoresCase | session.go:47-48 | Matching ignores letter case |
| Session.ItemAt | session.go:71-73 | Every position from 0 to 255 maps to the format with that number |
| Session.ItemIndex | session.go:75-77 | The position of a format is in 0 to 255, and ItemAt maps it back to the same format |
| Session.AdapterRoundTrip | session.go:67-77 | Each of the 6 adapter positions maps to a format and back to itself; position 0 is FormatNone, and positions 1 to 5 are the known formats |
| Session.Ext | session.go:135 | The extension is empty or a '.' followed by a suffix of the path with no '.' or separator in it. It is empty only when every '.' in the path is followed by a separator |
| Session.GuessFormatAsWritten | session.go:134-137 | The guess as written panics exactly when the file has no extension; otherwise it agrees with the corrected guess |
| Session.GuessFormat | session.go:134-138 | The guessed format is the given one or a known one. A file without an extension keeps the given format. A known extension, in any letter case, decides the format; any other extension keeps the given format, so the result differs from the given format only when the extension names it |
| Session.ExtensionlessFilePanics | session.go:134-137 | For "/tmp/place" the guess as written panics, while the corrected guess keeps the given format |
| Session.CodecFor | session.go:139-156 | A codec exists exactly for the five known formats |
| Session.PlanDecode | session.go:117-156 | With no file nothing is decoded. Otherwise the guessed format is used; an extension naming a known format overrides the given one, and a format without a codec is an "unknown format" error |
| Session.PlanDecodeAsWritten | session.go:117-156 | The decode plan as written panics exactly when an existing file has no extension; in every other case it is the corrected plan |
| Session.ExtensionlessDecodePanics | session.go:134-137 | For "/tmp/place", the plan as written panics while the corrected plan decodes with the given format |
| Session.EncodePreflight | session.go:162-171 | An empty file name gives "no file", checked before FormatNone gives "no format". Encoding proceeds exactly when both are set |
| Events.NewEvent | event/event.go:139-144 | A new event has ordered ids and fires nothing |
| Events.Connect | event/event.go:112-126 | The connection gets id `nextid`, and the appended last listener has that id and the function. `nextid` grows by one, the function is fired last, earlier listeners are kept, and ids stay strictly increasing |
| Events.Fire | event/event.go:128-134 | Fire calls one function per listener, the i-th call being the i-th listener's function |
| Events.Find | event/event.go:103-104 | The position of the first listener with the id, or -1 when no listener has it |
| Events.Unlisten | event/event.go:100-110 | Unlisten keeps `nextid`. An id no listener has leaves the event unchanged; otherwise exactly one listener is removed |
| Events.UnlistenRemovesOne | event/event.go:100-110 | Unlistening removes the listener with that id and keeps the others in order and ids increasing; no listener with the id remains; an unknown id is a no-op |
| Events.AsyncUnlisten | event/event.go:55-66 | The asynchronous unlisten removes the same listener from the list, and closes a channel exactly when a listener with the id was found |
| Events.DisconnectIdempotent | event/event.go:26-31 | After Disconnect the connection is detached, and disconnecting again changes nothing |
| Events.Disconnect | event/event.go:26-31 | Disconnect detaches the connection and keeps its id and `nextid`. An attached connection unlistens its id once; a detached one changes nothing |
| Events.ConnectThenDisconnect | event/event.go:26-126 | On an event with ordered ids, disconnecting the connection Connect returned gives back the listener list before the Connect; only `nextid` has moved on |
| Events.FireInConnectionOrder | event/event.go:128-134 | After connecting functions one by one, Fire calls them in connection order after the earlier listeners; ids stay increasing and `nextid` grows by the count |
| FileSelect.WithSlash | file_select_ctx.go:102-104 | A separator is appended only when the path does not already end in one |
| FileSelect.DirectoryItemIndex | file_select_ctx.go:100-112 | The result is -1 or a valid index. It is the first sub-directory whose path plus a separator is a prefix of the normalised item; no earlier one matches, and -1 means none matches |
| FileSelect.UnderMeans | file_select_ctx.go:102-107 | A path matches a directory exactly when it is that directory or continues it after a separator |
| FileSelect.SiblingIsNotUnder | file_select_ctx.go:102-107 | "/a/bc" does not match "/a/b", while "/a/b/c" and "/a/b" do |
| FileSelect.FilesItemIndex | file_select_ctx.go:42-50 | The result is the first index whose path equals the item, and -1 exactly when no file equals it |

## Left out

- The mutexes of `Controller`, `settingsMap` and both event types: every call is one atomic step.
- The goroutines, channels and asynchronous delivery of `asyncEvent`. Only its list bookkeeping is modelled; the closed channel is reported as the removed listener.
- `action.Group` and `Controller.OnUpdate` are used by the program but defined in no file modelled here.
- The rbxfile library (`Instance.SetParent`, `AddChildAt`, `Parent`, `Value.Copy`) is not part of this model. Its behaviour is stated as assumptions in the Tree module.
- Tree.Copy: value copies are the identity, because values are immutable here; the aliasing of the uncopied new value in `SetProperty.Forward` (cmd/cmd.go:212) cannot be expressed.
- Commands.Backward: `RemoveRoot.Backward` without a prior `Setup` would insert a nil pointer in Go; the model reports a panic. The controller always runs `Setup` first, so it never takes this path.
- History.Create and Actions.CreateController require a non-negative size, because Go's `make` panics on a negative one.
- Actions.DoUndoRedo: only one Do/Undo/Redo cycle is stated; a longer run of interleaved edits is not.
- Settings hooks (`SetHook`, and the `Fire(old, value)` calls in `Set` and `load`): the model returns the success flag only.
- The file and JSON handling of `load` and `save`, and the `save` call in `Set`. Only the merge over an already decoded map is modelled.
- The codec calls and file I/O of `decodeFile` and `EncodeFile`. Only the decisions made before them are modelled.
- Session.Lower: lower-cases ASCII letters only. The Unicode case mapping of `strings.ToLower` is not modelled, and no other character maps to a letter of the format names.
- Session.PlanDecode: plans with the corrected guess of the "## Findings" row; the panic of `decodeFile` as written for an existing file without an extension is stated by Session.PlanDecodeAsWritten.
- Session.Ext and FileSelect: paths use '/' as the only separator; Windows volume names and '\' are not modelled.
- Session.ItemAt: `Format(index)` keeps the low 8 bits of the index; the adapter only uses positions 0 to 5.
- `directoryNode.NodeAt`, the adapters' `Create` and `Size`, and all other user-interface code.

## Findings

| source | as written | input that shows it | evidently intended | confidence | as-written member | corrected member |
|---|---|---|---|---|---|---|
| session.go:135 | `filepath.Ext(f.Name())[1:]` slices the extension without checking it is non-empty | opening an existing file named "/tmp/place" (no extension): `Ext` returns "" and `[1:]` panics | a file without an extension keeps the given format, as the comment "Otherwise, use given format" says | not executed | Session.GuessFormatAsWritten | Session.GuessFormat |
