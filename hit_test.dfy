/**
 * Hit testing: the mouse-over rebuild of `UpdateWidgets` and the choice of the
 * top widget when a press arrives.
 */
module HitTest {
  import opened Geometry
  import opened Scene

  // ---------------------------------------------------------------------------
  // Mouse-over rebuild
  // ---------------------------------------------------------------------------

  /** A widget the rebuild loop does not skip: not null (present in the store) and drawn. */
  predicate Visited(store: map<WidgetId, Widget>, w: WidgetId) {
    w in store && store[w].isDrawn
  }

  /** The mouse-over list after a rebuild over `found`: visited widgets the pointer is over, in enumeration order. */
  function MouseOverOf(found: seq<WidgetId>, store: map<WidgetId, Widget>, over: set<WidgetId>): (r: seq<WidgetId>)
    ensures |r| <= |found|
  {
    if found == [] then []
    else
      var w := found[|found| - 1];
      MouseOverOf(found[..|found| - 1], store, over) + (if Visited(store, w) && w in over then [w] else [])
  }

  /** The callbacks the rebuild makes on each visited widget: `OnMouseOver` if over it, then `UpdateWidget`, `Recalculate`. */
  function RebuildEvents(found: seq<WidgetId>, store: map<WidgetId, Widget>, over: set<WidgetId>): seq<Event> {
    if found == [] then []
    else
      var w := found[|found| - 1];
      RebuildEvents(found[..|found| - 1], store, over)
      + (if Visited(store, w) then (if w in over then [MouseOver(w)] else []) + [UpdateWidget(w), Recalculate(w)] else [])
  }

  /** The store after the rebuild: every visited widget of `found` without a clip target has its scroll offset zeroed. */
  function ClearScroll(found: seq<WidgetId>, store: map<WidgetId, Widget>): (r: map<WidgetId, Widget>)
    ensures r.Keys == store.Keys
  {
    if found == [] then store
    else
      var prev := ClearScroll(found[..|found| - 1], store);
      var w := found[|found| - 1];
      if w in prev && prev[w].isDrawn && !prev[w].hasClip then prev[w := prev[w].(scrollOffset := Zero2)] else prev
  }

  /** The widgets of the `OnMouseOver` callbacks in a log, in order. */
  function OverCallbacks(events: seq<Event>): seq<WidgetId> {
    if events == [] then []
    else OverCallbacks(events[..|events| - 1]) + (if events[|events| - 1].MouseOver? then [events[|events| - 1].w] else [])
  }

  lemma {:induction false} OverCallbacksAppend(a: seq<Event>, b: seq<Event>)
    ensures OverCallbacks(a + b) == OverCallbacks(a) + OverCallbacks(b)
    decreases |b|
  {
    if b == [] {
      assert a + b == a;
    } else {
      assert (a + b)[..|a + b| - 1] == a + b[..|b| - 1];
      OverCallbacksAppend(a, b[..|b| - 1]);
    }
  }

  /** A widget is in the rebuilt mouse-over list exactly when it was found, is visited and the pointer is over it. */
  lemma {:induction false} MouseOverExactly(found: seq<WidgetId>, store: map<WidgetId, Widget>, over: set<WidgetId>, w: WidgetId)
    ensures w in MouseOverOf(found, store, over) <==> w in found && Visited(store, w) && w in over
    decreases |found|
  {
    if found != [] {
      var init := found[..|found| - 1];
      MouseOverExactly(init, store, over, w);
      assert found == init + [found[|found| - 1]];
    }
  }

  /** `x` occurs in `s` at some position before one where `y` occurs. */
  predicate Before(s: seq<WidgetId>, x: WidgetId, y: WidgetId) {
    exists a, b :: 0 <= a < b < |s| && s[a] == x && s[b] == y
  }

  /** Every two entries of `r` occur in `s` in the same order. */
  predicate InOrder(r: seq<WidgetId>, s: seq<WidgetId>) {
    forall i, j :: 0 <= i < j < |r| ==> Before(s, r[i], r[j])
  }

  /**
   * The rebuilt mouse-over list follows the enumeration order, and holds no
   * widget twice when the enumeration does not.
   */
  lemma {:induction false} MouseOverInOrder(found: seq<WidgetId>, store: map<WidgetId, Widget>, over: set<WidgetId>)
    ensures InOrder(MouseOverOf(found, store, over), found)
    ensures Distinct(found) ==> Distinct(MouseOverOf(found, store, over))
    decreases |found|
  {
    if found != [] {
      var init := found[..|found| - 1];
      var w := found[|found| - 1];
      var m := MouseOverOf(init, store, over);
      var r := MouseOverOf(found, store, over);
      MouseOverInOrder(init, store, over);
      assert init == found[..|found| - 1];
      forall i, j | 0 <= i < j < |r| ensures Before(found, r[i], r[j]) {
        if j < |m| {
          var a, b :| 0 <= a < b < |init| && init[a] == m[i] && init[b] == m[j];
          assert found[a] == r[i] && found[b] == r[j];
        } else {
          assert r[j] == w && r[i] == m[i];
          MouseOverExactly(init, store, over, m[i]);
          var a :| 0 <= a < |init| && init[a] == m[i];
          assert found[a] == r[i] && found[|found| - 1] == r[j];
        }
      }
      if Distinct(found) && |r| > |m| {
        MouseOverExactly(init, store, over, w);
        assert w !in init;
        forall i, j | 0 <= i < j < |r| ensures r[i] != r[j] {
          if j == |m| {
            assert r[i] == m[i] && m[i] in m;
          } else {
            assert r[i] == m[i] && r[j] == m[j];
          }
        }
      }
    }
  }

  /** Every widget put in the mouse-over list received `OnMouseOver`, in the same order, and no other widget did. */
  lemma {:induction false} EveryHoveredWidgetNotified(found: seq<WidgetId>, store: map<WidgetId, Widget>, over: set<WidgetId>)
    ensures OverCallbacks(RebuildEvents(found, store, over)) == MouseOverOf(found, store, over)
    decreases |found|
  {
    if found != [] {
      var init := found[..|found| - 1];
      var w := found[|found| - 1];
      EveryHoveredWidgetNotified(init, store, over);
      var tail := if Visited(store, w) then (if w in over then [MouseOver(w)] else []) + [UpdateWidget(w), Recalculate(w)] else [];
      OverCallbacksAppend(RebuildEvents(init, store, over), tail);
      if Visited(store, w) {
        var hover: seq<Event> := if w in over then [MouseOver(w)] else [];
        OverCallbacksAppend(hover, [UpdateWidget(w), Recalculate(w)]);
        OverCallbacksAppend([UpdateWidget(w)], [Recalculate(w)]);
        assert OverCallbacks([UpdateWidget(w)]) == [] by {
          assert [UpdateWidget(w)][..0] == [];
        }
        assert OverCallbacks([Recalculate(w)]) == [] by {
          assert [Recalculate(w)][..0] == [];
        }
        if w in over {
          assert OverCallbacks([MouseOver(w)]) == [w] by {
            assert [MouseOver(w)][..0] == [];
          }
        }
      }
    }
  }

  /**
   * The rebuild only zeroes scroll offsets: a widget keeps every other field,
   * and its offset is zeroed exactly when it was found, is visited and has no
   * clip target.
   */
  lemma {:induction false} ClearScrollOnlyScroll(found: seq<WidgetId>, store: map<WidgetId, Widget>, w: WidgetId)
    requires w in store
    ensures ClearScroll(found, store)[w] ==
              if w in found && Visited(store, w) && !store[w].hasClip then store[w].(scrollOffset := Zero2) else store[w]
    decreases |found|
  {
    if found != [] {
      var init := found[..|found| - 1];
      var x := found[|found| - 1];
      ClearScrollOnlyScroll(init, store, w);
      assert (w in found) == (w in init || w == x) by {
        assert found == init + [x];
      }
    }
  }

  // ---------------------------------------------------------------------------
  // Top-widget choice on a press
  // ---------------------------------------------------------------------------

  /**
   * A widget that may become the top widget: not null, selectable, and when it
   * is a scroll view only if button 2 is held or the view has touch control.
   */
  predicate Eligible(store: map<WidgetId, Widget>, button2: bool, w: WidgetId) {
    w in store && store[w].isSelectable && (store[w].isScroll ==> button2 || store[w].touchControl)
  }

  function Depth(store: map<WidgetId, Widget>, w: WidgetId): int
    requires w in store
  {
    store[w].position.z
  }

  /** One step of the scan over the mouse-over list, as the loop body of the click branch does it. */
  function Consider(store: map<WidgetId, Widget>, button2: bool, top: Option<WidgetId>, w: WidgetId): Option<WidgetId>
    requires top.Some? ==> top.value in store
  {
    if w in store && (top.None? || store[w].position.z < store[top.value].position.z) && store[w].isSelectable then
      if store[w].isScroll then (if button2 || store[w].touchControl then Some(w) else top)
      else Some(w)
    else top
  }

  /** The top widget the scan leaves after visiting all of `mouseOver` in order. */
  function TopWidget(mouseOver: seq<WidgetId>, store: map<WidgetId, Widget>, button2: bool): (r: Option<WidgetId>)
    ensures r.Some? ==> r.value in mouseOver && Eligible(store, button2, r.value)
    decreases |mouseOver|
  {
    if mouseOver == [] then None
    else
      var init := mouseOver[..|mouseOver| - 1];
      var prev := TopWidget(init, store, button2);
      assert prev.Some? ==> prev.value in mouseOver by {
        if prev.Some? {
          var k :| 0 <= k < |init| && init[k] == prev.value;
          assert mouseOver[k] == prev.value;
        }
      }
      Consider(store, button2, prev, mouseOver[|mouseOver| - 1])
  }

  /** Position `k` holds an eligible widget of least depth, and no eligible widget before it has that depth. */
  ghost predicate FirstMinimal(mouseOver: seq<WidgetId>, store: map<WidgetId, Widget>, button2: bool, k: int) {
    0 <= k < |mouseOver| && Eligible(store, button2, mouseOver[k])
    && (forall j :: 0 <= j < |mouseOver| && Eligible(store, button2, mouseOver[j]) ==>
          Depth(store, mouseOver[k]) <= Depth(store, mouseOver[j]))
    && (forall j :: 0 <= j < k && Eligible(store, button2, mouseOver[j]) ==>
          Depth(store, mouseOver[k]) < Depth(store, mouseOver[j]))
  }

  /**
   * The scan picks the first eligible widget of strictly least depth, and
   * picks nothing exactly when no widget is eligible; an ineligible widget
   * never keeps a later one from being picked.
   */
  lemma {:induction false} TopWidgetIsFirstMinimal(mouseOver: seq<WidgetId>, store: map<WidgetId, Widget>, button2: bool)
    ensures TopWidget(mouseOver, store, button2).None? <==>
              forall j :: 0 <= j < |mouseOver| ==> !Eligible(store, button2, mouseOver[j])
    ensures TopWidget(mouseOver, store, button2).Some? ==>
              exists k :: FirstMinimal(mouseOver, store, button2, k) && mouseOver[k] == TopWidget(mouseOver, store, button2).value
    decreases |mouseOver|
  {
    if mouseOver != [] {
      var n := |mouseOver|;
      var init := mouseOver[..n - 1];
      var w := mouseOver[n - 1];
      TopWidgetIsFirstMinimal(init, store, button2);
      var prev := TopWidget(init, store, button2);
      assert forall j :: 0 <= j < n - 1 ==> init[j] == mouseOver[j];
      if prev.None? {
        if Eligible(store, button2, w) {
          assert FirstMinimal(mouseOver, store, button2, n - 1);
        }
      } else {
        var k :| FirstMinimal(init, store, button2, k) && init[k] == prev.value;
        if Eligible(store, button2, w) && Depth(store, w) < Depth(store, prev.value) {
          assert FirstMinimal(mouseOver, store, button2, n - 1);
        } else {
          assert FirstMinimal(mouseOver, store, button2, k);
        }
      }
    }
  }

  /** The tie-break of two overlapping widgets: the nearer eligible one wins, whatever their order. */
  lemma NearerWidgetWins(store: map<WidgetId, Widget>, button2: bool, a: WidgetId, b: WidgetId)
    requires Eligible(store, button2, a) && Eligible(store, button2, b)
    requires Depth(store, a) < Depth(store, b)
    ensures TopWidget([a, b], store, button2) == Some(a)
    ensures TopWidget([b, a], store, button2) == Some(a)
  {
    assert [a, b][..1] == [a];
    assert [b, a][..1] == [b];
    assert [a][..0] == [];
    assert [b][..0] == [];
  }
}
