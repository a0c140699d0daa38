# BIM viewer session and layout: a Dafny model

This project models the two pieces of logic in the browser viewer's main
script (`src/viewer/index.ts`) that do not just forward calls to the 3D
library:

- **The layout of the floating grid** (`layout.dfy`, module `Layout`). The
  grid shows one of four layouts: `main`, `secondary` (the property panel),
  `world` (the world panel) and `classifier` (the classification panel). It
  starts at `main`. The toolbar's "Classifier" button toggles between
  `classifier` and `main`. The "World" button sets `world`. A highlight from
  the highlighter sets `secondary`, and clearing the highlight sets `main`.
  When the grid is absent, every handler leaves the layout alone. The model is a
  next-state function `Next` over an `Event` datatype, and `Replay`, which
  runs a log of events in order.
- **The session state** (`session.dfy`, module `Session`, class `Viewer`).
  The state is:
  - the fragments manager's registry, from a fragment id to a group that
    holds the set of its hidden item ids and whether it was disposed;
  - the highlighter's selection, from a fragment id to a set of item ids;
  - the current model (`fragmentModel`);
  - the log of models handed to model processing.

  The class's methods are the toolbar actions and the load handler:
  - "Visibility" (`ToggleVisibility`) flips each selected item of a
    registered group on its own;
  - "Dispose" (`DisposeFragments`) disposes every group and forgets the
    current model;
  - "Export" (`ExportFragments`) produces the current model's binary, or
    nothing when there is no current model;
  - the "fragments loaded" handler (`OnFragmentsLoaded`) sends a model with
    properties to processing and records it as the current model, unless
    processing rejects.

`ToggleVisibility` and `DisposeFragments` keep the source's loops: they
update the maps one entry at a time. They are proved against the
specification functions `Toggled` and `Disposed`. The properties of those
functions are proved as lemmas and `ensures` clauses: per-item flip, the
unselected and unregistered left alone, toggling twice restores, and
one-at-a-time equals the closed form in any order. The loops pick the next
fragment id or item id from a set nondeterministically. So the proved
postcondition holds in whatever order the JavaScript `Map` and `Set` are
iterated.

The fragment codec (`fragmentModel.export()`) is a parameter,
`encode: Model -> seq<byte>`. Model processing (relation indexing and
classification) is recorded in the `processed` log and is not run. Whether
it completes or rejects is a parameter, `processingSucceeds`.

The library's `fragment.setVisibility(visible, [id])` is not visible in this
file. The model assumes it adds `id` to the group's `hiddenItems` when
`visible` is false and removes it when `visible` is true, and touches no
other item. This is the reading that the visibility test at
`src/viewer/index.ts:136` relies on. `Session.SetVisibility` states this
assumption. The per-item flip results (`Flipped`, `Toggled`,
`ToggleInOrderFlips`, `MixedGroupStaysMixed` and the two toggle methods)
rest on it.

The highlighter's selection and the fragments manager's registration belong to
the library. `Select`, `ClearSelection` and `Register` stand in for them.

## Model

| member | source | states |
|---|---|---|
| `Layout.StartsAtMain` | src/viewer/index.ts:395-396 | Before any event, the layout is `main`. |
| `Layout.ClassifierToggles` | src/viewer/index.ts:160-170 | The classifier command maps every layout other than `classifier` to `classifier`, and `classifier` to `main`. From `main`, two presses return to `main`. |
| `Layout.ClassifierPressesAlternate` | src/viewer/index.ts:163-169 | After n > 0 presses in a row, the layout is `classifier` exactly when n is odd and the start layout was not `classifier` (or n is even and it was). Otherwise it is `main`. |
| `Layout.WorldIdempotent` | src/viewer/index.ts:172-176 | Applying the world command twice gives the same layout as applying it once, with or without a grid. |
| `Layout.NavigationForgetsPriorLayout` | src/viewer/index.ts:255-267 | With a grid, the world, highlight and clear events lead to the same layout from any two prior layouts: `world`, `secondary` and `main` respectively. |
| `Layout.NoGridNoChange` | src/viewer/index.ts:160-176 | With no grid, every log of events leaves the layout where it was, because each handler returns early. |
| `Layout.ReplayConcat` | src/viewer/index.ts:160-176 | Handling a log in two parts gives the same layout as handling it whole. The layout is a function of the event log. |
| `Layout.NavigationResetsHistory` | src/viewer/index.ts:255-267 | With a grid, a world, highlight or clear event erases everything before it. The layout after `a + [e] + b` depends only on `e` and `b`. |
| `Layout.LastSelectionEventDecides` | src/viewer/index.ts:255-267 | With a grid, a log ending in a highlight leaves `secondary`, one ending in a clear leaves `main`, and one ending in the world command leaves `world`. |
| `Session.SetVisibility` | src/viewer/index.ts:138-140 | The assumed effect of the library call `setVisibility(visible, [id])`: the item is hidden afterwards exactly when `visible` is false, and every other item's hidden flag stays as it was. |
| `Session.Flipped` | src/viewer/index.ts:133-144 | Each item of the batch is hidden afterwards exactly when it was visible before. Every item outside the batch keeps its flag. |
| `Session.ToggleInOrderFlips` | src/viewer/index.ts:133-144 | Toggling the items one at a time, in any duplicate-free order, gives the per-item flip (XOR) of the batch. |
| `Session.Toggled` | src/viewer/index.ts:130-145 | The registered ids are unchanged, and so are the disposed flags and the groups the selection does not name. In a selected group, each selected item's hidden flag is negated and each unselected item's flag is kept. |
| `Session.ToggleEmptySelection` | src/viewer/index.ts:124-125 | With nothing selected, the registry is unchanged. |
| `Session.ToggleSkipsUnregistered` | src/viewer/index.ts:132-134 | Adding a selected fragment id with no registered group does not change the outcome of the rest of the batch. |
| `Session.ToggleTwiceRestores` | src/viewer/index.ts:130-145 | Toggling the same selection twice restores every group. |
| `Session.MixedGroupStaysMixed` | src/viewer/index.ts:136-140 | If a selected visible item and a selected hidden item share a group, the first becomes hidden and the second visible. |
| `Session.Disposed` | src/viewer/index.ts:53-61 | Every registered group is marked disposed, the registered ids are unchanged, and the hidden items are untouched. |
| `Session.Viewer.constructor` | src/viewer/index.ts:178 | A new viewer has no group, no selection, no current model and nothing processed. |
| `Session.Viewer.Register` | src/viewer/index.ts:132 | Stand-in for the fragments manager: adds group `f` with no hidden item. Nothing else changes. |
| `Session.Viewer.Select` | src/viewer/index.ts:124 | Stand-in for the highlighter: the selection that the toolbar actions read becomes `picked`. Nothing else changes. The same highlight event drives `Layout.Highlight`. |
| `Session.Viewer.ClearSelection` | src/viewer/index.ts:263 | Stand-in for the highlighter's clear: the selection becomes empty. Nothing else changes. The same clear event drives `Layout.Clear`. |
| `Session.Viewer.ToggleVisibility` | src/viewer/index.ts:122-146 | The new registry is `Toggled(old registry, selection)`, including the early return on an empty selection. The selection, the current model and the processing log are unchanged. |
| `Session.Viewer.ToggleFragment` | src/viewer/index.ts:132-144 | One pass of the outer loop: a registered group gets its selected items flipped, an unregistered id changes nothing, and no other group changes. The loop is proved one item at a time through `ToggleInOrder` in the order it visits the ids. `ToggleInOrderFlips` then turns that into the per-item flip. |
| `Session.Viewer.DisposeFragments` | src/viewer/index.ts:49-63 | The new registry is `Disposed(old registry)`, so every group that was registered has been disposed. The current model is `None`. The selection is unchanged. |
| `Session.Viewer.OnFragmentsLoaded` | src/viewer/index.ts:216-222 | The model is appended to the processing log if and only if it has properties. The current model becomes the loaded one when the model has no properties or processing completes. When processing rejects, the current model stays what it was. The registry and the selection are unchanged. |
| `Session.Viewer.ExportFragments` | src/viewer/index.ts:13-15 | Produces nothing exactly when there is no current model. Otherwise it produces the codec's encoding of the current model. State is unchanged. |
| `Session.MixedToggleScenario` | src/viewer/index.ts:122-146 | On a concrete viewer, item 1 is visible and item 2 hidden, and an unregistered id is also selected. One toggle hides 1 and shows 2. A second toggle restores the group. |
| `Session.ExportAfterDispose` | src/viewer/index.ts:13-63 | After a load that needs no processing or whose processing completes, export produces the loaded model's encoding. After a load whose processing rejects, export produces the previous current model's encoding, if there is one. After a dispose, export produces nothing. |

## Left out

- Scene, renderer, camera, grid creation and resize handling (`src/viewer/index.ts:179-233`), and adding the loaded model to the scene (line 217): rendering calls into the 3D library.
- `importFragments`, the file input, `FileReader`, `Blob`, the object URL and the `.frag` download (lines 16-47): browser I/O. `ExportFragments` returns the binary instead of downloading it.
- The fragment codec and IFC loading (`fragmentModel.export()`, `fragments.load`, `IfcLoader`): opaque library code. The codec is a parameter.
- `processModel` (lines 65-97) and `showProperties` (lines 99-120): calls to the library's relation indexer, classifier and property lookup, whose results only reach the console and the classification tree widget. Processing is recorded as an entry in the `processed` log.
- `isolateSelection` and `showAll` (lines 148-158): each is a single call to the library's `Hider`, whose behaviour is not visible in this file.
- The fallbacks that probe the library version (`fragments.groups || list`, `disposeGroup` or `group.dispose()`, `hiddenItems` or `hider.get`, `setVisibility` or `hider.set`): only the first branch of each is modelled.
- UI panels, toolbar, property table updates and layout templates (lines 237-394): widget rendering. Only the layout names are kept. This includes the property-table reset that the clear handler performs before its grid check (line 264).
- The library's `setVisibility` is assumed to add or remove exactly the one id it is given (see above). Its real behaviour is not visible in this file.
- Why processing rejects: the model takes the outcome of processing as a parameter. It does not model the failures that cause a rejection, such as a missing indexer class (line 67) or a missing `index`/`process` method (line 69).
- The `await` of model processing inside the load handler: other events may run while it is suspended. The model treats the handler as one atomic step.
- Session.Viewer.DisposeFragments: marks each group disposed and keeps it in the registry. Whether the library's `disposeGroup` also removes the group from the manager is not visible in this file, so it is not modelled. The resources the library releases are not modelled either.
- Purging the selection on dispose: the code does not purge the selection when the groups are disposed, and the model follows the code. A later toggle therefore still reaches the disposed groups that remain registered. A purge-on-dispose policy is a design goal of the viewer but is not what `src/viewer/index.ts:49-63` does.
- Aliasing: the model holds one group value per registered id. The source could in principle map two ids to the same group object. The model does not capture that.
- Empty-selection test: the early return of `toggleVisibility` tests the number of selected fragment ids (`selection.size`), as the code does, not the number of selected items.
- vite.config.js: build configuration with no logic.
