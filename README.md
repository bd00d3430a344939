# OpenGUI root, modelled in Dafny

OpenGUI is an immediate-style GUI for Unity. `OGRoot` is its root behaviour.
Once per frame it does three things:

- It updates the current page and runs the pointer state machine: press, release, drag and escape.
- It re-enumerates the page's widgets and rebuilds the mouse-over list on every frame that has a current page (and, on a dirty frame, a skin). For two frames after `SetDirty()` it first reads the skin's texture size; the rebuild itself is the same either way, since `UpdateWidgets` ignores its `onlyPositions` argument.
- After the camera renders, it submits one draw pass: the skin quads, one glyph batch per font slot, the clipped lines of `lines`, and each widget's custom GL drawing.

This project models that root and proves what it promises.

Layout, one module per concern:

- `Geometry` (`geometry.dfy`): integer vectors, `Rect` with a half-open `Contains`, and `Clamp`.
- `Scene` (`scene.dfy`): the widget and page records and the event log. The log stands for every callback into a widget or page and every GL submission. It also holds the per-frame input record that replaces Unity's `Input` and `Screen`, `GetTouch`, and the branch tests of `UpdateMouse`.
- `HitTest` (`hit_test.dfy`): the mouse-over rebuild and the choice of the top widget on a press.
- `Pointer` (`pointer.dfy`): the press/release/drag/escape state machine as functions on values, with its properties.
- `LineClip` (`line_clip.dfy`): `OGLine` and the line clipping of the draw pass.
- `DrawPass` (`draw_pass.dfy`): the whole draw pass as one function of the widget list, the store and the skin's font slots, with its properties.
- `Pages` (`pages.dfy`): the page search of `GoToPage` and the page activation of `SetCurrentPage` and `GoToPage`.
- `Dirty` (`dirty.dfy`): the dirty counter.
- `OGRoot` (`og_root.dfy`):
  - the class `Root`, whose fields are the behaviour's fields and whose methods are its operations;
  - the loops the methods run, as methods on the values they read;
  - `Frame`/`TickFrame`, the specification of one `Update`, with lemmas about runs of several frames.

Widgets and pages are records kept in maps keyed by id. An id that is not in the widget store is a null or destroyed widget. Unity's overloaded null test treats those two alike, and so does the model. Each method of `Root` is proved against a specification function:

- `Update` against `TickFrame`;
- `UpdateMouse` against `Pointer.MouseStep`;
- `UpdateWidgets` against `HitTest.MouseOverOf`, `RebuildEvents` and `ClearScroll`;
- `OnPostRender` against `DrawPass.Render`;
- `SetCurrentPage` against `Pages.ShowOnly`;
- `GoToPage` against `Pages.Target`, `Switched` and `SwitchEvents`.

The properties are lemmas about those functions.

`GoToPage` with a name that matches no page does not leave the root without a page. The old current page stays current: it is exited, deactivated, reactivated and started again (`Pages.NoMatchRestarts`). The dirty branch of `Update` reads the skin's atlas before doing anything else, so with no skin that frame stops there. The rebuild is skipped and the counter is not decremented (`OGRoot.TickFrame`). `UpdateWidgets` ignores its `onlyPositions` argument, so the dirty branch and the plain refresh rebuild alike.

## Model

| member | source | states |
|---|---|---|
| Scene.TouchBranchesExclusive | OpenGUI/Assets/Plugins/OpenGUI/Scripts/OGRoot.js:257-266 | with no mouse button active, the first touch picks the branch (lines 275, 302, 324): began for a press, ended or cancelled for a release, moved for a drag; at most one holds, none without a touch or with a stationary one |
| Geometry.Clamp | OpenGUI/Assets/Plugins/OpenGUI/Scripts/OGRoot.js:162-175 | for a non-empty range, the result lies in it and is the value itself when the value already does |
| OGRoot.Root.constructor | OpenGUI/Assets/Plugins/OpenGUI/Scripts/OGRoot.js:16-34 | the initial field values: counter 0, no widget list, empty mouse-over list, no down widget, not over anything |
| OGRoot.Root.Start | OpenGUI/Assets/Plugins/OpenGUI/Scripts/OGRoot.js:198-202 | when playing, the current page (if any) is started; nothing else changes |
| OGRoot.Root.SetCurrentPage | OpenGUI/Assets/Plugins/OpenGUI/Scripts/OGRoot.js:61-67 | the page becomes current; an enumerated page is active iff it is that page; pages outside the enumeration are untouched |
| Pages.ShowOnlyExactly | OpenGUI/Assets/Plugins/OpenGUI/Scripts/OGRoot.js:64-66 | the activation pass (`ShowOnly`) keeps the set of pages; after it an enumerated page is active iff it is the given page; other pages unchanged; no page renamed |
| OGRoot.Root.GoToPage | OpenGUI/Assets/Plugins/OpenGUI/Scripts/OGRoot.js:69-89 | the new current page is the last one of the name, else the old one; old page exited and deactivated, then new page activated and started; counter 2 |
| Pages.Target | OpenGUI/Assets/Plugins/OpenGUI/Scripts/OGRoot.js:69-80 | definition: the page `GoToPage` makes current, the last enumerated page of the name or else the old current page; its properties are the `LastNamed*` and `NoMatchRestarts` rows |
| Pages.LastNamed | OpenGUI/Assets/Plugins/OpenGUI/Scripts/OGRoot.js:76-80 | a page the search finds is enumerated, known and has the name |
| Pages.LastNamedNone | OpenGUI/Assets/Plugins/OpenGUI/Scripts/OGRoot.js:76-80 | the search finds nothing iff no enumerated page has the name |
| Pages.LastNamedIsLast | OpenGUI/Assets/Plugins/OpenGUI/Scripts/OGRoot.js:76-80 | the found page has the name and no later enumerated page does (the last match wins) |
| Pages.LastNamedReadsNames | OpenGUI/Assets/Plugins/OpenGUI/Scripts/OGRoot.js:70-80 | deactivating the old page first cannot change the search, which reads only names |
| Pages.SwitchEvents | OpenGUI/Assets/Plugins/OpenGUI/Scripts/OGRoot.js:70-86 | definition: the callbacks of a page switch, `ExitPage` on the old page and then `StartPage` on the new one; its properties are in `SwitchOutcome` |
| Pages.SwitchOutcome | OpenGUI/Assets/Plugins/OpenGUI/Scripts/OGRoot.js:70-86 | the switch (`Switched`, with `WithActive` for each activation) keeps the set of pages; the new page is active and its start is the last callback; the exit of the old page is the first; a different old page ends inactive; nothing else changes |
| Pages.NoMatchRestarts | OpenGUI/Assets/Plugins/OpenGUI/Scripts/OGRoot.js:69-89 | with no page of the name, the current page stays: exit then start, and it ends active |
| OGRoot.Root.OnPostRender | OpenGUI/Assets/Plugins/OpenGUI/Scripts/OGRoot.js:95-192 | with a skin and a widget list, the submissions and the styled widgets are those of `Render`; otherwise nothing |
| DrawPass.Render | OpenGUI/Assets/Plugins/OpenGUI/Scripts/OGRoot.js:95-192 | definition: the draw pass, skin batch, glyph batches, line batch and custom draws in that order, cut short after a glyph batch opened on an empty font slot; its properties are the `Render*` rows |
| OGRoot.SkinLoop | OpenGUI/Assets/Plugins/OpenGUI/Scripts/OGRoot.js:108-116 | the skin loop's submissions are `SkinEvents` |
| DrawPass.SkinEvents | OpenGUI/Assets/Plugins/OpenGUI/Scripts/OGRoot.js:108-116 | only skin submissions, and a widget submits iff it is listed, not null, active, drawn and of non-zero size |
| DrawPass.VisitEvents | OpenGUI/Assets/Plugins/OpenGUI/Scripts/OGRoot.js:135-148 | definition: one widget's requests in a glyph batch, default styles when it has none, else its text when it is drawn, active and its style asks for the batch's slot |
| DrawPass.Styled | OpenGUI/Assets/Plugins/OpenGUI/Scripts/OGRoot.js:137-144 | definition: the widget after its turn, with styles set and the batch's font bound to a writing style that had none |
| OGRoot.StyleWidget | OpenGUI/Assets/Plugins/OpenGUI/Scripts/OGRoot.js:132-149 | one widget's turn in a glyph batch gives `VisitEvents` and leaves the widget `Styled` |
| DrawPass.TextRow | OpenGUI/Assets/Plugins/OpenGUI/Scripts/OGRoot.js:132-150 | definition: the widget loop of one glyph batch, each non-null widget visited in list order; its properties are the `TextRow*` rows |
| OGRoot.RowLoop | OpenGUI/Assets/Plugins/OpenGUI/Scripts/OGRoot.js:132-150 | the widget loop of one glyph batch is `TextRow` |
| DrawPass.NextBatch | OpenGUI/Assets/Plugins/OpenGUI/Scripts/OGRoot.js:121-152 | definition: the batch of one font slot, skipped when slot 0 is empty, stopping the pass right after opening it when its own slot is empty |
| OGRoot.FontLoop | OpenGUI/Assets/Plugins/OpenGUI/Scripts/OGRoot.js:120-153 | the font loop, stopping at an empty slot, is `TextPasses` over every slot |
| DrawPass.TextRowFacts | OpenGUI/Assets/Plugins/OpenGUI/Scripts/OGRoot.js:132-150 | a glyph batch keeps the set of widgets, only restyles them, emits only default-style requests and text of its own slot, and text only from widgets that write in it |
| DrawPass.TextRowStylesOnce | OpenGUI/Assets/Plugins/OpenGUI/Scripts/OGRoot.js:137-138 | within a batch, a listed widget without styles asks for them exactly once and then has them |
| DrawPass.TextRowDraws | OpenGUI/Assets/Plugins/OpenGUI/Scripts/OGRoot.js:132-149 | over a list without repeats, a widget submits its text in a batch iff it is listed, already had styles and writes in that slot; an unlisted widget is left as it was |
| DrawPass.AbortIsFinal | OpenGUI/Assets/Plugins/OpenGUI/Scripts/OGRoot.js:120-128 | once a pass has stopped at an empty slot, later slots add nothing |
| DrawPass.TextPassesComplete | OpenGUI/Assets/Plugins/OpenGUI/Scripts/OGRoot.js:120-128 | the glyph passes run to the end iff slot 0 is empty or every slot holds a font; with slot 0 empty they do nothing |
| DrawPass.TextPassesStopAt | OpenGUI/Assets/Plugins/OpenGUI/Scripts/OGRoot.js:120-128 | with slot 0 filled and slot j the first empty one, batches 0..j are opened and the pass ends right after opening batch j |
| DrawPass.TextPassesFacts | OpenGUI/Assets/Plugins/OpenGUI/Scripts/OGRoot.js:120-153 | all glyph passes together keep the set of widgets, only restyle, and emit text only in existing slots from writers |
| DrawPass.TextPassesBatches | OpenGUI/Assets/Plugins/OpenGUI/Scripts/OGRoot.js:120-153 | a completed glyph pass opens one batch per slot in slot order, or none when slot 0 is empty |
| DrawPass.TextPassesStylesOnce | OpenGUI/Assets/Plugins/OpenGUI/Scripts/OGRoot.js:120-153 | over all batches, a listed widget without styles asks for them once (when slot 0 holds a font) and keeps them |
| DrawPass.TextPassesDraws | OpenGUI/Assets/Plugins/OpenGUI/Scripts/OGRoot.js:120-153 | with the slots up to f present, a listed writer of slot f has submitted its slot-f text after the batches below k iff slot f is among them and it had styles then, from the start or from batch 0 |
| LineClip.EndpointVertex | OpenGUI/Assets/Plugins/OpenGUI/Scripts/OGRoot.js:163-173 | definition: the vertex of one endpoint, y-flipped as is when clipping is off or it is inside, clamped into the rectangle when only the other endpoint is inside, none otherwise |
| LineClip.LineVertices | OpenGUI/Assets/Plugins/OpenGUI/Scripts/OGRoot.js:159-173 | definition: both endpoints' vertices of one line, start first; its properties are the `LineClip` lemma rows |
| OGRoot.LineLoopBody | OpenGUI/Assets/Plugins/OpenGUI/Scripts/OGRoot.js:159-175 | one line's vertices are `LineVertices` |
| OGRoot.LineLoop | OpenGUI/Assets/Plugins/OpenGUI/Scripts/OGRoot.js:155-177 | the line pass is `LinePass`: nothing without lines, otherwise one line batch |
| LineClip.LineEmitsPairOrNothing | OpenGUI/Assets/Plugins/OpenGUI/Scripts/OGRoot.js:159-175 | a line emits two vertices or none, two iff clipping is off or an endpoint is inside |
| LineClip.NoClipEmitsBoth | OpenGUI/Assets/Plugins/OpenGUI/Scripts/OGRoot.js:159-175 | with a clip rectangle of no area, both endpoints are emitted unclamped, y-flipped |
| LineClip.BothInsideEmitsBoth | OpenGUI/Assets/Plugins/OpenGUI/Scripts/OGRoot.js:159-175 | both endpoints inside: both emitted unclamped |
| LineClip.NeitherInsideEmitsNothing | OpenGUI/Assets/Plugins/OpenGUI/Scripts/OGRoot.js:159-175 | clipping on and neither endpoint inside: no vertex |
| LineClip.OneInsideClampsOther | OpenGUI/Assets/Plugins/OpenGUI/Scripts/OGRoot.js:159-175 | one endpoint inside: it is emitted as is and the other clamped into the closed rectangle |
| LineClip.ContainsTestedBeforeFlip | OpenGUI/Assets/Plugins/OpenGUI/Scripts/OGRoot.js:160-164 | containment is tested on the unflipped point, so an inside endpoint can be emitted outside the rectangle |
| LineClip.LinesVerticesCount | OpenGUI/Assets/Plugins/OpenGUI/Scripts/OGRoot.js:158-174 | the pass emits only vertices, two for each line that emits |
| LineClip.ClampedVerticesInRect | OpenGUI/Assets/Plugins/OpenGUI/Scripts/OGRoot.js:158-174 | with clipping on, every clamped vertex lies in the closed clip rectangle |
| OGRoot.CustomLoop | OpenGUI/Assets/Plugins/OpenGUI/Scripts/OGRoot.js:181-187 | the custom-draw loop's submissions are `GLEvents` |
| DrawPass.GLEvents | OpenGUI/Assets/Plugins/OpenGUI/Scripts/OGRoot.js:181-187 | only custom draws, and a widget draws iff it is listed, not null, active and drawn |
| DrawPass.RenderStagesOrdered | OpenGUI/Assets/Plugins/OpenGUI/Scripts/OGRoot.js:95-192 | paint order: all skin before all text before all line vertices before all custom draws |
| DrawPass.RenderSkinExactly | OpenGUI/Assets/Plugins/OpenGUI/Scripts/OGRoot.js:104-118 | a widget's skin is submitted iff it is listed, active, drawn and of non-zero size |
| DrawPass.RenderCustomDrawsExactly | OpenGUI/Assets/Plugins/OpenGUI/Scripts/OGRoot.js:180-187 | a completed pass gives exactly the listed active drawn widgets their custom draw; a stopped pass gives none |
| DrawPass.RenderTextOnlyFromWriters | OpenGUI/Assets/Plugins/OpenGUI/Scripts/OGRoot.js:139-146 | text in slot f comes only from a drawn active widget whose style asks for slot f, and f is a slot of the skin |
| DrawPass.RenderTextFromEveryWriter | OpenGUI/Assets/Plugins/OpenGUI/Scripts/OGRoot.js:120-153 | conversely, over a list without repeats and with every slot up to f present, a listed writer of slot f submits its slot-f text iff it already had styles or f > 0: without styles it is only given them in batch 0 (lines 137-138) |
| DrawPass.NotDrawnNeverDrawn | OpenGUI/Assets/Plugins/OpenGUI/Scripts/OGRoot.js:95-192 | a widget that is not drawn submits no skin, no text and no custom draw |
| DrawPass.RenderBatches | OpenGUI/Assets/Plugins/OpenGUI/Scripts/OGRoot.js:95-192 | a completed pass opens the skin batch, the glyph batches in slot order, then the line batch when there are lines |
| DrawPass.DefaultStylesOnce | OpenGUI/Assets/Plugins/OpenGUI/Scripts/OGRoot.js:120-138 | a listed widget without styles asks for them exactly once per pass when slot 0 holds a font, otherwise never |
| OGRoot.Root.SetDirty | OpenGUI/Assets/Plugins/OpenGUI/Scripts/OGRoot.js:212-214 | the counter becomes 2 |
| OGRoot.Root.SetDirtyCount | OpenGUI/Assets/Plugins/OpenGUI/Scripts/OGRoot.js:208-210 | the counter becomes the given value |
| OGRoot.Root.ReleaseWidget | OpenGUI/Assets/Plugins/OpenGUI/Scripts/OGRoot.js:216-218 | the down widget is cleared |
| OGRoot.Root.Update | OpenGUI/Assets/Plugins/OpenGUI/Scripts/OGRoot.js:220-251 | the new state is `TickFrame` of the old one: page update and pointer when playing with a page, then the dirty branch or the refresh |
| OGRoot.PlayFrame | OpenGUI/Assets/Plugins/OpenGUI/Scripts/OGRoot.js:229-236 | definition: the playing part of a frame, the page's `UpdatePage` and then `UpdateMouse`, only when playing with a current page |
| OGRoot.MouseFrame | OpenGUI/Assets/Plugins/OpenGUI/Scripts/OGRoot.js:268-269 | definition: `UpdateMouse` on the root, nothing before the first widget list, otherwise `MouseStep` |
| OGRoot.WidgetsFrame | OpenGUI/Assets/Plugins/OpenGUI/Scripts/OGRoot.js:519-558 | definition: `UpdateWidgets` on the root; its properties are in `WidgetsFrameRebuilds` |
| OGRoot.TickFrame | OpenGUI/Assets/Plugins/OpenGUI/Scripts/OGRoot.js:220-251 | definition: one `Update`; with a positive counter after the pointer, the skin's atlas is read (ending the frame without a skin), then the rebuild and the decrement; otherwise the rebuild alone |
| OGRoot.Run | OpenGUI/Assets/Plugins/OpenGUI/Scripts/OGRoot.js:220-251 | definition: successive `Update`s over a sequence of frame inputs; the multi-frame lemmas are stated over it |
| Dirty.RelayoutsCount | OpenGUI/Assets/Plugins/OpenGUI/Scripts/OGRoot.js:239-250 | from counter c, over frames that do not set it (each lowering it by one while positive, `Tick`), the dirty branch runs on the first c frames and no others |
| OGRoot.TickCountsDown | OpenGUI/Assets/Plugins/OpenGUI/Scripts/OGRoot.js:229-250 | a frame whose pointer step does not call `SetDirty()` takes the dirty branch iff the counter is positive, and then decrements it |
| OGRoot.DirtyTicksCount | OpenGUI/Assets/Plugins/OpenGUI/Scripts/OGRoot.js:229-250 | over frames none of whose pointer steps calls `SetDirty()`, the dirty branch runs on min(c, n) of n frames, none for c <= 0, and the counter ends that much lower |
| OGRoot.SetDirtyRelayoutsTwice | OpenGUI/Assets/Plugins/OpenGUI/Scripts/OGRoot.js:212-214 | after `SetDirty()`, exactly two full rebuilds (fewer if fewer frames run), given no pointer step sets it again |
| OGRoot.SetDirtyCountRelayouts | OpenGUI/Assets/Plugins/OpenGUI/Scripts/OGRoot.js:208-210 | after `SetDirty(s)`, exactly s full rebuilds (s = 1 gives one), none for s <= 0, given no pointer step sets it |
| OGRoot.DragRearmsDirty | OpenGUI/Assets/Plugins/OpenGUI/Scripts/OGRoot.js:324-345 | a frame whose pointer step drags a live, enabled, draggable non-scroll widget takes the dirty branch and leaves the counter at 1 |
| OGRoot.Root.UpdateMouse | OpenGUI/Assets/Plugins/OpenGUI/Scripts/OGRoot.js:268-355 | the new state is `MouseFrame`: nothing before the first widget list, otherwise `MouseStep` |
| Pointer.Branch | OpenGUI/Assets/Plugins/OpenGUI/Scripts/OGRoot.js:274-346 | definition: the click, release or drag branch, tested in that order, or nothing |
| Pointer.MouseStep | OpenGUI/Assets/Plugins/OpenGUI/Scripts/OGRoot.js:268-355 | definition: one `UpdateMouse` once a widget list exists, the branch and then the escape key |
| Pointer.Press | OpenGUI/Assets/Plugins/OpenGUI/Scripts/OGRoot.js:274-299 | the click branch moves no widget and leaves the counter; the down widget stays or becomes a widget of the mouse-over list |
| OGRoot.Root.ClickBranch | OpenGUI/Assets/Plugins/OpenGUI/Scripts/OGRoot.js:274-300 | the click branch's down widget and callbacks are those of `Press` |
| Pointer.Release | OpenGUI/Assets/Plugins/OpenGUI/Scripts/OGRoot.js:302-321 | the release branch keeps the down widget, the counter and the set of widgets, makes at most one callback, and changes no widget but the down one |
| OGRoot.Root.ReleaseBranch | OpenGUI/Assets/Plugins/OpenGUI/Scripts/OGRoot.js:302-322 | the release branch's store and callbacks are those of `Release` |
| Pointer.Drag | OpenGUI/Assets/Plugins/OpenGUI/Scripts/OGRoot.js:324-345 | the drag branch keeps the down widget and the set of widgets, leaves the counter or sets it to 2, makes at most one callback, and changes no widget but the down one |
| OGRoot.FollowPointer | OpenGUI/Assets/Plugins/OpenGUI/Scripts/OGRoot.js:328-342 | one draggable widget's drag step is `Follow` |
| OGRoot.Root.DragBranch | OpenGUI/Assets/Plugins/OpenGUI/Scripts/OGRoot.js:324-346 | the drag branch's store, counter and callbacks are those of `Drag` |
| Pointer.Escape | OpenGUI/Assets/Plugins/OpenGUI/Scripts/OGRoot.js:348-354 | the escape key keeps the store and the counter, only adds callbacks, and keeps or clears the down widget |
| OGRoot.Root.EscapeKey | OpenGUI/Assets/Plugins/OpenGUI/Scripts/OGRoot.js:348-354 | with escape and a live down widget, one cancel and the down widget cleared; otherwise nothing |
| OGRoot.FindTop | OpenGUI/Assets/Plugins/OpenGUI/Scripts/OGRoot.js:275-290 | the scan's result is `TopWidget` |
| HitTest.Consider | OpenGUI/Assets/Plugins/OpenGUI/Scripts/OGRoot.js:278-290 | definition: one step of the scan, taking an eligible widget strictly nearer than the current choice |
| HitTest.TopWidget | OpenGUI/Assets/Plugins/OpenGUI/Scripts/OGRoot.js:275-290 | a chosen widget is in the mouse-over list and eligible: not null, selectable, and a scroll view only with button 2 or touch control |
| HitTest.TopWidgetIsFirstMinimal | OpenGUI/Assets/Plugins/OpenGUI/Scripts/OGRoot.js:275-290 | nothing is chosen iff no widget is eligible; otherwise the choice is the first eligible widget of strictly least z |
| HitTest.NearerWidgetWins | OpenGUI/Assets/Plugins/OpenGUI/Scripts/OGRoot.js:278-288 | of two eligible widgets, the nearer is chosen in either order |
| Pointer.PressIsExclusive | OpenGUI/Assets/Plugins/OpenGUI/Scripts/OGRoot.js:274-300 | on a press, a different live old down widget gets exactly one cancel and it comes first; a down event goes only to the enabled top widget, last, exactly when the down widget changes |
| Pointer.ReleaseOutcome | OpenGUI/Assets/Plugins/OpenGUI/Scripts/OGRoot.js:302-322 | a release keeps the down widget and counter; a live one gets exactly one of up or cancel, is snapped back when reset-after-drag, and no other widget changes |
| Pointer.DragOutcome | OpenGUI/Assets/Plugins/OpenGUI/Scripts/OGRoot.js:324-346 | a drag notifies the down widget; a draggable one follows the pointer at its offset, the offset is captured only while zero, the capture frame keeps its position, and the counter becomes 2 |
| Pointer.DragIgnoredWhenDisabled | OpenGUI/Assets/Plugins/OpenGUI/Scripts/OGRoot.js:325 | a drag whose down widget is missing or disabled does nothing |
| Pointer.EscapeReleases | OpenGUI/Assets/Plugins/OpenGUI/Scripts/OGRoot.js:348-354 | escape after any branch cancels and releases a live down widget and changes nothing else; otherwise the branch's outcome stands |
| Pointer.MouseStepKeepsDirty | OpenGUI/Assets/Plugins/OpenGUI/Scripts/OGRoot.js:268-355 | the pointer step sets the counter to 2 exactly on a drag of a live, enabled, draggable non-scroll widget (line 343) and otherwise leaves it |
| Pointer.DragTicksKeepOrigin | OpenGUI/Assets/Plugins/OpenGUI/Scripts/OGRoot.js:330-341 | over drag frames (`DragTicks`, which keeps the set of widgets) a reset-after-drag widget keeps the origin of its drag recorded and changes only position, offset and origin |
| Pointer.ResetAfterDragRestores | OpenGUI/Assets/Plugins/OpenGUI/Scripts/OGRoot.js:304-308 | a reset-after-drag widget pressed at p0, dragged and released is back at p0 with its offset cleared |
| Pointer.ReleaseWithoutDragSnapsToRecord | OpenGUI/Assets/Plugins/OpenGUI/Scripts/OGRoot.js:304-308 | released with no drag frame, a reset-after-drag widget snaps to its stale recorded origin (zero when never captured) |
| OGRoot.Root.UpdateWidgets | OpenGUI/Assets/Plugins/OpenGUI/Scripts/OGRoot.js:519-558 | the new state is `WidgetsFrame`: nothing without a current page, otherwise the rebuild |
| OGRoot.Rebuild | OpenGUI/Assets/Plugins/OpenGUI/Scripts/OGRoot.js:527-554 | the rebuild loop's list, callbacks and store are `MouseOverOf`, `RebuildEvents` and `ClearScroll` |
| OGRoot.RebuildWidget | OpenGUI/Assets/Plugins/OpenGUI/Scripts/OGRoot.js:532-548 | a visited widget gets its mouse-over callback iff hovered, then its update; its scroll offset is zeroed iff it has no clip target |
| HitTest.RebuildEvents | OpenGUI/Assets/Plugins/OpenGUI/Scripts/OGRoot.js:529-548 | definition: the callbacks of the rebuild, for each non-null drawn widget in order its mouse-over callback when hovered, then its update and recalculation |
| HitTest.MouseOverExactly | OpenGUI/Assets/Plugins/OpenGUI/Scripts/OGRoot.js:527-540 | the rebuilt list (`MouseOverOf`, no longer than the enumeration) holds a widget iff it was enumerated, is not null, is drawn and the pointer is over it |
| HitTest.MouseOverInOrder | OpenGUI/Assets/Plugins/OpenGUI/Scripts/OGRoot.js:529-538 | the rebuilt list follows the enumeration order (any two of its entries occur in the enumeration in the same order), and has no repeats when the enumeration has none |
| HitTest.EveryHoveredWidgetNotified | OpenGUI/Assets/Plugins/OpenGUI/Scripts/OGRoot.js:532-538 | the mouse-over callbacks name exactly the widgets of the rebuilt list, in its order |
| HitTest.ClearScrollOnlyScroll | OpenGUI/Assets/Plugins/OpenGUI/Scripts/OGRoot.js:541-544 | the rebuild (`ClearScroll`, which keeps the set of widgets) zeroes a widget's scroll offset iff it was enumerated, is visited and has no clip target; nothing else changes |
| OGRoot.WidgetsFrameRebuilds | OpenGUI/Assets/Plugins/OpenGUI/Scripts/OGRoot.js:519-558 | after the rebuild, the list holds exactly the hovered drawn widgets, in enumeration order and without repeats when the enumeration has none, each notified in list order; isMouseOver iff the list is non-empty; scroll offsets zeroed; without a page nothing changes |

## Left out

- The editor-only block (`OGRoot.js` lines 357-513) is not part of this model.
- GL state is not modelled: the matrix push and pop (101-102, 190), the `SetPass` calls (106, 130, 157), and the font-shader assignment (126-128). Submissions are log events.
- DrawPass.Render: takes the skin's atlas, the skin's font array and `lineMaterial` to be set. The source dereferences them at line 106 (atlas), line 121 (font array) and line 157 (`lineMaterial`, only when there are lines), and throws when one is null; the model's pass carries on as if they were set.
- DrawPass.RenderCustomDrawsExactly: holds on that assumption; in the source, a null `lineMaterial` with lines present ends the pass before any custom draw.
- Widget internals live in other files and are not part of this model. `DrawSkin`, `DrawText`, `DrawGL`, `UpdateWidget`, `Recalculate`, `OnMouse*`, and the pages' `UpdatePage`, `StartPage` and `ExitPage` are recorded as events and have no further effect.
- `CheckMouseOver` is an input of each frame: the set of widgets it holds for. It is taken as fixed within one frame.
- `GetComponentsInChildren` is an input of each frame for widgets, and a fixed enumeration `pageTree` for pages.
- `skin.GetDefaultStyles` is modelled only as giving the widget its styles.
- Unity engine plumbing is not modelled:
  - `Application.isPlaying` is only a flag of the frame input (and a parameter of `Start`).
  - `GameObject.SetActive` is only the page's active flag.
  - The static `instance` (lines 221-223, 40-42) is left out.
  - The transform reset (225-227) is left out.
  - The texture-size read (240-241) is modelled only as the null dereference it causes without a skin; a skin whose atlas is null is taken to have one.
  - `ReloadFonts` (48-55), `screenRect` (520), `w.root = this` (546) and `DestroyImmediate` of hidden widgets (551-553) are left out.
- Floating point: positions, sizes and clipping use integers. `Rect.Contains` is the half-open test on x and y.
- For `UpdateMouse`'s scroll-view tests, `GetComponent(OGScrollView)` and `GetType() == OGScrollView` are both one `isScroll` flag.
- The font slot of a skin is only present or absent. A present font is taken to have its `bitmapFont` and material.
- `lines` is a sequence: a null `lines` array is treated as an empty one, and null entries are not modelled.
- HitTest.TopWidget: a mouse-over entry that is null or destroyed is skipped. The source dereferences it at line 281 and throws. That can happen: a hidden widget is added to the mouse-over list at line 537 and destroyed at line 552 in the same rebuild, and the model does not destroy it.
