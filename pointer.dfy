/**
 * The pointer state machine of `UpdateMouse`: press, release and drag are
 * mutually exclusive branches chosen in that order, and the escape key is
 * looked at after whichever of them ran.
 */
module Pointer {
  import opened Geometry
  import opened Scene
  import opened HitTest

  /** What one `UpdateMouse` changes: the down widget, the widget store, the dirty counter, and the callbacks it made. */
  datatype MouseResult = MouseResult(down: Option<WidgetId>, store: map<WidgetId, Widget>, dirty: int, events: seq<Event>)

  /** `downWidget` as Unity's null test sees it: set and not destroyed. */
  predicate Live(store: map<WidgetId, Widget>, down: Option<WidgetId>) {
    down.Some? && down.value in store
  }

  /** The click branch: cancel a different old down widget, then press the top widget unless it is disabled. */
  function Press(mouseOver: seq<WidgetId>, down: Option<WidgetId>, store: map<WidgetId, Widget>, dirty: int, inp: TickInput): (r: MouseResult)
    ensures r.store == store && r.dirty == dirty
    ensures r.down == down || (r.down.Some? && r.down.value in mouseOver && r.down.value in store)
  {
    var top := TopWidget(mouseOver, store, inp.button2);
    var cancel := if Live(store, down) && down != top then [MouseCancel(down.value)] else [];
    if top.Some? && !store[top.value].isDisabled then MouseResult(top, store, dirty, cancel + [MouseDown(top.value)])
    else MouseResult(down, store, dirty, cancel)
  }

  /** A widget snapped back to the position recorded when its drag began, with the drag record cleared. */
  function SnapBack(w: Widget): Widget {
    w.(position := w.dragOrigPos, dragOffset := Zero3, dragOrigPos := Zero3)
  }

  /** The release branch: snap a reset-after-drag widget back, then `OnMouseUp` or `OnMouseCancel`. */
  function Release(down: Option<WidgetId>, store: map<WidgetId, Widget>, dirty: int, inp: TickInput): (r: MouseResult)
    ensures r.down == down && r.dirty == dirty && r.store.Keys == store.Keys && |r.events| <= 1
    ensures forall x :: x in store && Some(x) != down ==> r.store[x] == store[x]
  {
    if !Live(store, down) then MouseResult(down, store, dirty, [])
    else
      var d := down.value;
      var w := if store[d].resetAfterDrag && !store[d].isScroll then SnapBack(store[d]) else store[d];
      var up := (d in inp.over || TouchOf(inp) == Touching(Ended)) && !w.isDisabled;
      MouseResult(down, store[d := w], dirty, [if up then MouseUp(d) else MouseCancel(d)])
  }

  /** A draggable widget moved to follow the pointer `m`, capturing the offset while it is still zero. */
  function Follow(w: Widget, m: Vec3): Widget {
    var captured :=
      if w.dragOffset == Zero3 then
        w.(dragOrigPos := if w.resetAfterDrag then w.position else w.dragOrigPos, dragOffset := Sub(w.position, m))
      else w;
    captured.(position := Add(m, captured.dragOffset))
  }

  /** The drag branch: `OnMouseDrag`, and for a draggable non-scroll widget, follow the pointer and mark dirty. */
  function Drag(down: Option<WidgetId>, store: map<WidgetId, Widget>, dirty: int, inp: TickInput): (r: MouseResult)
    ensures r.down == down && r.store.Keys == store.Keys && (r.dirty == dirty || r.dirty == 2) && |r.events| <= 1
    ensures forall x :: x in store && Some(x) != down ==> r.store[x] == store[x]
  {
    if !Live(store, down) || store[down.value].isDisabled then MouseResult(down, store, dirty, [])
    else
      var d := down.value;
      if store[d].isDraggable && !store[d].isScroll then
        MouseResult(down, store[d := Follow(store[d], MousePoint(inp))], 2, [MouseDrag(d)])
      else MouseResult(down, store, dirty, [MouseDrag(d)])
  }

  /** The escape key: cancel and release a live down widget. */
  function Escape(b: MouseResult, inp: TickInput): (r: MouseResult)
    ensures r.store == b.store && r.dirty == b.dirty && b.events <= r.events
    ensures r.down == b.down || r.down.None?
  {
    if inp.escape && Live(b.store, b.down) then b.(down := None, events := b.events + [MouseCancel(b.down.value)])
    else b
  }

  /** The press, release or drag branch, whichever comes first; none of them when no button or touch is active. */
  function Branch(mouseOver: seq<WidgetId>, down: Option<WidgetId>, store: map<WidgetId, Widget>, dirty: int, inp: TickInput): MouseResult {
    if Pressed(inp) then Press(mouseOver, down, store, dirty, inp)
    else if Released(inp) then Release(down, store, dirty, inp)
    else if Held(inp) then Drag(down, store, dirty, inp)
    else MouseResult(down, store, dirty, [])
  }

  /** One `UpdateMouse` once a widget list exists: the branch, then the escape key. */
  function MouseStep(mouseOver: seq<WidgetId>, down: Option<WidgetId>, store: map<WidgetId, Widget>, dirty: int, inp: TickInput): MouseResult {
    Escape(Branch(mouseOver, down, store, dirty, inp), inp)
  }

  // ---------------------------------------------------------------------------
  // Properties
  // ---------------------------------------------------------------------------

  /**
   * Exclusivity of the callbacks on a press: an old down widget other than the
   * top widget gets exactly one `OnMouseCancel`, and it comes first;
   * `OnMouseDown` goes only to the top widget, last, and only if it is not
   * disabled, which is also exactly when the down widget changes.
   */
  predicate PressCallbacks(mouseOver: seq<WidgetId>, down: Option<WidgetId>, store: map<WidgetId, Widget>, inp: TickInput, r: MouseResult) {
    var top := TopWidget(mouseOver, store, inp.button2);
    var takes := top.Some? && !store[top.value].isDisabled;
    && r.down == (if takes then top else down)
    && (Live(store, down) && down != top ==>
          |r.events| > 0 && r.events[0] == MouseCancel(down.value) && Count(r.events, MouseCancel(down.value)) == 1)
    && (!(Live(store, down) && down != top) ==> forall i :: 0 <= i < |r.events| ==> !r.events[i].MouseCancel?)
    && (forall i :: 0 <= i < |r.events| && r.events[i].MouseDown? ==>
          i == |r.events| - 1 && takes && r.events[i] == MouseDown(top.value))
    && (takes ==> |r.events| > 0 && r.events[|r.events| - 1] == MouseDown(top.value))
  }

  lemma PressCallbacksHold(mouseOver: seq<WidgetId>, down: Option<WidgetId>, store: map<WidgetId, Widget>, dirty: int, inp: TickInput)
    ensures PressCallbacks(mouseOver, down, store, inp, Press(mouseOver, down, store, dirty, inp))
  {
    var top := TopWidget(mouseOver, store, inp.button2);
    var r := Press(mouseOver, down, store, dirty, inp);
    if Live(store, down) && down != top {
      var c := MouseCancel(down.value);
      assert [c][..0] == [];
      if top.Some? && !store[top.value].isDisabled {
        assert r.events == [c, MouseDown(top.value)];
        assert r.events[..1] == [c];
        assert Count([c], c) == 1;
        assert Count(r.events, c) == 1;
      } else {
        assert r.events == [c];
        assert Count(r.events, c) == 1;
      }
    }
  }

  /** A press (without escape) moves no widget, leaves the counter, and makes the exclusive callbacks of `PressCallbacks`. */
  lemma PressIsExclusive(mouseOver: seq<WidgetId>, down: Option<WidgetId>, store: map<WidgetId, Widget>, dirty: int, inp: TickInput)
    requires Pressed(inp) && !inp.escape
    ensures var r := MouseStep(mouseOver, down, store, dirty, inp);
            r.store == store && r.dirty == dirty && PressCallbacks(mouseOver, down, store, inp, r)
  {
    assert MouseStep(mouseOver, down, store, dirty, inp) == Press(mouseOver, down, store, dirty, inp);
    PressCallbacksHold(mouseOver, down, store, dirty, inp);
  }

  /**
   * A release keeps the down widget (it is not cleared) and the dirty counter;
   * a live down widget gets exactly one of `OnMouseUp` (pointer over it or a
   * touch that ended, and not disabled) and `OnMouseCancel`; a reset-after-drag
   * non-scroll widget is snapped back, and no other widget changes.
   */
  lemma ReleaseOutcome(mouseOver: seq<WidgetId>, down: Option<WidgetId>, store: map<WidgetId, Widget>, dirty: int, inp: TickInput)
    requires !Pressed(inp) && Released(inp) && !inp.escape
    ensures var r := MouseStep(mouseOver, down, store, dirty, inp);
            && r.down == down && r.dirty == dirty && r.store.Keys == store.Keys
            && (!Live(store, down) ==> r.store == store && r.events == [])
            && (Live(store, down) ==>
                  var d := down.value;
                  var up := (d in inp.over || TouchOf(inp) == Touching(Ended)) && !store[d].isDisabled;
                  && r.events == [if up then MouseUp(d) else MouseCancel(d)]
                  && (forall x :: x in store && x != d ==> r.store[x] == store[x])
                  && (store[d].resetAfterDrag && !store[d].isScroll ==>
                        r.store[d].position == store[d].dragOrigPos
                        && r.store[d].dragOffset == Zero3 && r.store[d].dragOrigPos == Zero3)
                  && (!(store[d].resetAfterDrag && !store[d].isScroll) ==> r.store[d] == store[d]))
  {
  }

  /**
   * A drag tick on a live, enabled down widget: `OnMouseDrag`; a draggable
   * non-scroll widget is placed at the flipped pointer plus its drag offset,
   * the offset (and the original position, for a reset-after-drag widget) is
   * captured only while the offset is zero, the capture tick leaves the
   * position where it was, and the dirty counter becomes 2.
   */
  lemma DragOutcome(mouseOver: seq<WidgetId>, down: Option<WidgetId>, store: map<WidgetId, Widget>, dirty: int, inp: TickInput)
    requires DragTick(inp) && !inp.escape
    requires Live(store, down) && !store[down.value].isDisabled
    ensures var r := MouseStep(mouseOver, down, store, dirty, inp);
            var d := down.value;
            var w := store[d];
            var m := MousePoint(inp);
            && r.down == down && r.events == [MouseDrag(d)] && r.store.Keys == store.Keys
            && (forall x :: x in store && x != d ==> r.store[x] == store[x])
            && (!(w.isDraggable && !w.isScroll) ==> r.store == store && r.dirty == dirty)
            && (w.isDraggable && !w.isScroll ==>
                  && r.dirty == 2
                  && r.store[d].position == Add(m, r.store[d].dragOffset)
                  && (w.dragOffset != Zero3 ==> r.store[d].dragOffset == w.dragOffset && r.store[d].dragOrigPos == w.dragOrigPos)
                  && (w.dragOffset == Zero3 ==>
                        r.store[d].dragOffset == Sub(w.position, m)
                        && r.store[d].position == w.position
                        && r.store[d].dragOrigPos == (if w.resetAfterDrag then w.position else w.dragOrigPos)))
  {
  }

  /** A drag tick whose down widget is missing or disabled does nothing. */
  lemma DragIgnoredWhenDisabled(mouseOver: seq<WidgetId>, down: Option<WidgetId>, store: map<WidgetId, Widget>, dirty: int, inp: TickInput)
    requires DragTick(inp) && !inp.escape
    requires !Live(store, down) || store[down.value].isDisabled
    ensures MouseStep(mouseOver, down, store, dirty, inp) == MouseResult(down, store, dirty, [])
  {
  }

  /**
   * Escape, after whichever branch ran, cancels and releases a live down
   * widget and does nothing else; without escape, or with no live down widget
   * left, the branch's outcome stands.
   */
  lemma EscapeReleases(mouseOver: seq<WidgetId>, down: Option<WidgetId>, store: map<WidgetId, Widget>, dirty: int, inp: TickInput)
    ensures var b := Branch(mouseOver, down, store, dirty, inp);
            var r := MouseStep(mouseOver, down, store, dirty, inp);
            && r.store == b.store && r.dirty == b.dirty
            && (inp.escape && Live(b.store, b.down) ==> r.down.None? && r.events == b.events + [MouseCancel(b.down.value)])
            && (!(inp.escape && Live(b.store, b.down)) ==> r == b)
  {
  }

  /** A drag tick whose down widget is live, enabled, draggable and not a scroll view: the one step that calls `SetDirty()`. */
  predicate RearmsDirty(down: Option<WidgetId>, store: map<WidgetId, Widget>, inp: TickInput) {
    DragTick(inp) && Live(store, down) && !store[down.value].isDisabled && store[down.value].isDraggable && !store[down.value].isScroll
  }

  /** The pointer step sets the dirty counter to 2 on a drag of a live, enabled, draggable non-scroll widget, and otherwise leaves it alone. */
  lemma MouseStepKeepsDirty(mouseOver: seq<WidgetId>, down: Option<WidgetId>, store: map<WidgetId, Widget>, dirty: int, inp: TickInput)
    ensures MouseStep(mouseOver, down, store, dirty, inp).dirty == if RearmsDirty(down, store, inp) then 2 else dirty
  {
  }

  // ---------------------------------------------------------------------------
  // Reset after drag over several ticks
  // ---------------------------------------------------------------------------

  /** The widget `d` after drag ticks with each of `inputs` in turn. */
  function DragTicks(d: WidgetId, store: map<WidgetId, Widget>, dirty: int, inputs: seq<TickInput>): (r: MouseResult)
    ensures r.store.Keys == store.Keys
    decreases |inputs|
  {
    if inputs == [] then MouseResult(Some(d), store, dirty, [])
    else
      var r := MouseStep([], Some(d), store, dirty, inputs[0]);
      var rest := DragTicks(d, r.store, r.dirty, inputs[1..]);
      rest.(events := r.events + rest.events)
  }

  /** A plain drag tick: the drag branch runs and escape is not pressed. */
  predicate PlainDrag(inp: TickInput) {
    DragTick(inp) && !inp.escape
  }

  /** What the drag ticks keep of a widget whose drag started at `p0`. */
  predicate DragRecord(w: Widget, p0: Vec3, started: bool) {
    (w.dragOffset == Zero3 ==> w.position == p0) && (started || w.dragOffset != Zero3 ==> w.dragOrigPos == p0)
  }

  /** One drag step keeps the widget's record and touches only its position, offset and original position. */
  lemma FollowKeepsRecord(w: Widget, m: Vec3, p0: Vec3, started: bool)
    requires w.resetAfterDrag && DragRecord(w, p0, started)
    ensures DragRecord(Follow(w, m), p0, true)
    ensures Follow(w, m).(position := w.position, dragOffset := w.dragOffset, dragOrigPos := w.dragOrigPos) == w
  {
    var f := Follow(w, m);
    if w.dragOffset == Zero3 {
      assert f == w.(dragOrigPos := w.position, dragOffset := Sub(w.position, m), position := Add(m, Sub(w.position, m)));
      assert Add(m, Sub(w.position, m)) == w.position;
    } else {
      assert f == w.(position := Add(m, w.dragOffset));
    }
  }

  lemma {:induction false} DragTicksKeepOrigin(d: WidgetId, store: map<WidgetId, Widget>, dirty: int, inputs: seq<TickInput>, p0: Vec3, started: bool)
    requires d in store
    requires store[d].isDraggable && !store[d].isScroll && store[d].resetAfterDrag && !store[d].isDisabled
    requires forall i :: 0 <= i < |inputs| ==> PlainDrag(inputs[i])
    requires DragRecord(store[d], p0, started)
    ensures var r := DragTicks(d, store, dirty, inputs);
            && d in r.store
            && r.store[d].(position := store[d].position, dragOffset := store[d].dragOffset, dragOrigPos := store[d].dragOrigPos) == store[d]
            && DragRecord(r.store[d], p0, started || |inputs| > 0)
    decreases |inputs|
  {
    if inputs != [] {
      var r := MouseStep([], Some(d), store, dirty, inputs[0]);
      var m := MousePoint(inputs[0]);
      assert r == Drag(Some(d), store, dirty, inputs[0]);
      FollowKeepsRecord(store[d], m, p0, started);
      assert r.store == store[d := Follow(store[d], m)];
      assert forall i :: 0 <= i < |inputs| - 1 ==> inputs[1..][i] == inputs[i + 1];
      DragTicksKeepOrigin(d, r.store, r.dirty, inputs[1..], p0, true);
    }
  }

  /**
   * A reset-after-drag widget pressed at position `p0` (drag record clear),
   * dragged for one tick or more and then released, is back at `p0`.
   */
  lemma ResetAfterDragRestores(d: WidgetId, store: map<WidgetId, Widget>, dirty: int, inputs: seq<TickInput>, release: TickInput)
    requires d in store
    requires store[d].isDraggable && !store[d].isScroll && store[d].resetAfterDrag && !store[d].isDisabled
    requires store[d].dragOffset == Zero3
    requires |inputs| > 0 && forall i :: 0 <= i < |inputs| ==> PlainDrag(inputs[i])
    requires !Pressed(release) && Released(release) && !release.escape
    ensures var dragged := DragTicks(d, store, dirty, inputs);
            var r := MouseStep([], Some(d), dragged.store, dragged.dirty, release);
            r.store[d].position == store[d].position && r.store[d].dragOffset == Zero3
  {
    DragTicksKeepOrigin(d, store, dirty, inputs, store[d].position, false);
  }

  /**
   * Without a drag tick between press and release, a reset-after-drag widget
   * is snapped to whatever `dragOrigPos` holds: the origin when it was never
   * captured.
   */
  lemma ReleaseWithoutDragSnapsToRecord(d: WidgetId, store: map<WidgetId, Widget>, dirty: int, release: TickInput)
    requires d in store && store[d].resetAfterDrag && !store[d].isScroll
    requires store[d].dragOrigPos == Zero3
    requires !Pressed(release) && Released(release) && !release.escape
    ensures MouseStep([], Some(d), store, dirty, release).store[d].position == Zero3
  {
  }
}
