/**
 * `OGRoot`: the GUI root that, once per frame, updates the current page,
 * runs the pointer state machine, rebuilds the widget list and the
 * mouse-over list, and after the camera renders submits the draw pass.
 */
module OGRoot {
  import opened Geometry
  import opened Scene
  import opened HitTest
  import opened Pointer
  import opened LineClip
  import opened DrawPass
  import opened Pages
  import opened Dirty

  /** The part of the root one `Update` reads and writes. */
  datatype Frame = Frame(
    dirty: int,
    widgets: Option<seq<WidgetId>>,
    mouseOver: seq<WidgetId>,
    down: Option<WidgetId>,
    current: Option<PageId>,
    store: map<WidgetId, Widget>,
    isMouseOver: bool,
    log: seq<Event>)

  /** `UpdateMouse`: nothing before the first widget list exists, otherwise one step of the pointer state machine. */
  function MouseFrame(f: Frame, inp: TickInput): Frame {
    if f.widgets.None? then f
    else
      var r := MouseStep(f.mouseOver, f.down, f.store, f.dirty, inp);
      f.(down := r.down, store := r.store, dirty := r.dirty, log := f.log + r.events)
  }

  /** `UpdateWidgets`: with a current page, take its widgets and rebuild the mouse-over list. */
  function WidgetsFrame(f: Frame, inp: TickInput): Frame {
    if f.current.None? then f
    else
      var mo := MouseOverOf(inp.found, f.store, inp.over);
      f.(widgets := Some(inp.found), mouseOver := mo, store := ClearScroll(inp.found, f.store),
         log := f.log + RebuildEvents(inp.found, f.store, inp.over), isMouseOver := |mo| > 0)
  }

  /** The playing part of `Update`: `UpdatePage` on the current page, then `UpdateMouse`. */
  function PlayFrame(f: Frame, inp: TickInput): Frame {
    if inp.isPlaying && f.current.Some? then MouseFrame(f.(log := f.log + [UpdatePage(f.current.value)]), inp)
    else f
  }

  /** Whether a tick takes the dirty branch: the counter is positive once the pointer has run. */
  predicate DirtyBranch(f: Frame, inp: TickInput) {
    PlayFrame(f, inp).dirty > 0
  }

  /**
   * One `Update`. The dirty branch reads the skin's atlas first, so without a
   * skin it dereferences null and the tick ends there; otherwise it rebuilds
   * and decrements the counter. The other branch only rebuilds, since the
   * rebuild ignores its `onlyPositions` argument.
   */
  function TickFrame(f: Frame, inp: TickInput, hasSkin: bool): Frame {
    var a := PlayFrame(f, inp);
    if a.dirty > 0 then (if hasSkin then WidgetsFrame(a, inp).(dirty := a.dirty - 1) else a)
    else WidgetsFrame(a, inp)
  }

  /** The root after each tick of `inputs` in turn. */
  function Run(f: Frame, inputs: seq<TickInput>, hasSkin: bool): Frame
    decreases |inputs|
  {
    if inputs == [] then f else Run(TickFrame(f, inputs[0], hasSkin), inputs[1..], hasSkin)
  }

  /** How many ticks of `inputs` take the dirty branch. */
  function DirtyTicks(f: Frame, inputs: seq<TickInput>, hasSkin: bool): nat
    decreases |inputs|
  {
    if inputs == [] then 0
    else (if DirtyBranch(f, inputs[0]) then 1 else 0) + DirtyTicks(TickFrame(f, inputs[0], hasSkin), inputs[1..], hasSkin)
  }

  // ---------------------------------------------------------------------------
  // Properties of a tick
  // ---------------------------------------------------------------------------

  /**
   * After the rebuild with a current page, the mouse-over list holds exactly
   * the non-null, drawn widgets of the page the pointer is over, in
   * enumeration order (without repeats when the enumeration has none), each
   * of which was sent `OnMouseOver` in list order; `isMouseOver` says whether the list
   * is empty; a visited widget without a clip target has a zero scroll
   * offset. Without a current page nothing changes.
   */
  lemma WidgetsFrameRebuilds(f: Frame, inp: TickInput)
    ensures f.current.None? ==> WidgetsFrame(f, inp) == f
    ensures var g := WidgetsFrame(f, inp);
            f.current.Some? ==>
              && g.widgets == Some(inp.found)
              && g.isMouseOver == (|g.mouseOver| > 0)
              && (forall w :: w in g.mouseOver <==> w in inp.found && Visited(f.store, w) && w in inp.over)
              && InOrder(g.mouseOver, inp.found)
              && (Distinct(inp.found) ==> Distinct(g.mouseOver))
              && g.log == f.log + RebuildEvents(inp.found, f.store, inp.over)
              && OverCallbacks(RebuildEvents(inp.found, f.store, inp.over)) == g.mouseOver
              && g.store.Keys == f.store.Keys
              && (forall w :: w in inp.found && Visited(f.store, w) && !f.store[w].hasClip ==> g.store[w].scrollOffset == Zero2)
              && g.down == f.down && g.dirty == f.dirty && g.current == f.current
  {
    if f.current.Some? {
      forall w ensures w in WidgetsFrame(f, inp).mouseOver <==> w in inp.found && Visited(f.store, w) && w in inp.over {
        MouseOverExactly(inp.found, f.store, inp.over, w);
      }
      EveryHoveredWidgetNotified(inp.found, f.store, inp.over);
      MouseOverInOrder(inp.found, f.store, inp.over);
      forall w | w in inp.found && Visited(f.store, w) && !f.store[w].hasClip
        ensures WidgetsFrame(f, inp).store[w].scrollOffset == Zero2
      {
        ClearScrollOnlyScroll(inp.found, f.store, w);
      }
    }
  }

  /** Whether the pointer step of this tick calls `SetDirty()`: it runs, and it drags a live, enabled, draggable non-scroll widget. */
  predicate FrameRearms(f: Frame, inp: TickInput) {
    inp.isPlaying && f.current.Some? && f.widgets.Some? && RearmsDirty(f.down, f.store, inp)
  }

  /** No tick of `inputs`, run in turn from `f`, has a pointer step that calls `SetDirty()`. */
  predicate NeverRearms(f: Frame, inputs: seq<TickInput>) {
    forall i :: 0 <= i < |inputs| ==> !FrameRearms(Run(f, inputs[..i], true), inputs[i])
  }

  /**
   * A tick whose pointer step does not call `SetDirty()` takes the dirty
   * branch exactly when the counter is positive, and then lowers it by one.
   */
  lemma TickCountsDown(f: Frame, inp: TickInput)
    requires !FrameRearms(f, inp)
    ensures DirtyBranch(f, inp) <==> f.dirty > 0
    ensures TickFrame(f, inp, true).dirty == Tick(f.dirty)
  {
    if inp.isPlaying && f.current.Some? && f.widgets.Some? {
      MouseStepKeepsDirty(f.mouseOver, f.down, f.store, f.dirty, inp);
    }
  }

  /** The ticks of `inputs` after the first, run from the root the first one leaves. */
  lemma NeverRearmsTail(f: Frame, inputs: seq<TickInput>)
    requires inputs != [] && NeverRearms(f, inputs)
    ensures !FrameRearms(f, inputs[0])
    ensures NeverRearms(TickFrame(f, inputs[0], true), inputs[1..])
  {
    assert inputs[..0] == [];
    var g := TickFrame(f, inputs[0], true);
    forall i | 0 <= i < |inputs| - 1 ensures !FrameRearms(Run(g, inputs[1..][..i], true), inputs[1..][i]) {
      assert inputs[..i + 1][1..] == inputs[1..][..i];
      assert Run(f, inputs[..i + 1], true) == Run(g, inputs[1..][..i], true);
      assert !FrameRearms(Run(f, inputs[..i + 1], true), inputs[i + 1]);
    }
  }

  /**
   * Over ticks whose pointer steps never call `SetDirty()`, the dirty branch
   * runs on the first `f.dirty` ticks only, and the counter ends that much
   * lower.
   */
  lemma {:induction false} DirtyTicksCount(f: Frame, inputs: seq<TickInput>)
    requires NeverRearms(f, inputs)
    ensures DirtyTicks(f, inputs, true) == Relayouts(f.dirty, |inputs|)
    ensures DirtyTicks(f, inputs, true) == if f.dirty <= 0 then 0 else Min(f.dirty, |inputs|)
    ensures Run(f, inputs, true).dirty == if f.dirty <= 0 then f.dirty else f.dirty - Min(f.dirty, |inputs|)
    decreases |inputs|
  {
    RelayoutsCount(f.dirty, |inputs|);
    if inputs != [] {
      NeverRearmsTail(f, inputs);
      TickCountsDown(f, inputs[0]);
      DirtyTicksCount(TickFrame(f, inputs[0], true), inputs[1..]);
    }
  }

  /** After `SetDirty()`, two ticks take the dirty branch (fewer if fewer ticks run), provided no pointer step sets it again. */
  lemma SetDirtyRelayoutsTwice(f: Frame, inputs: seq<TickInput>)
    requires NeverRearms(f.(dirty := 2), inputs)
    ensures DirtyTicks(f.(dirty := 2), inputs, true) == Min(2, |inputs|)
  {
    DirtyTicksCount(f.(dirty := 2), inputs);
  }

  /** After `SetDirty(s)`, the dirty branch runs on `s` ticks (at most the number of ticks), and on none when `s <= 0`. */
  lemma SetDirtyCountRelayouts(f: Frame, s: int, inputs: seq<TickInput>)
    requires NeverRearms(f.(dirty := s), inputs)
    ensures DirtyTicks(f.(dirty := s), inputs, true) == if s <= 0 then 0 else Min(s, |inputs|)
  {
    DirtyTicksCount(f.(dirty := s), inputs);
  }

  /** A tick whose pointer step calls `SetDirty()` re-arms the counter: that tick and the next one take the dirty branch. */
  lemma DragRearmsDirty(f: Frame, inp: TickInput)
    requires FrameRearms(f, inp)
    ensures DirtyBranch(f, inp) && TickFrame(f, inp, true).dirty == 1
  {
    var g := f.(log := f.log + [UpdatePage(f.current.value)]);
    MouseStepKeepsDirty(g.mouseOver, g.down, g.store, g.dirty, inp);
  }

  // ---------------------------------------------------------------------------
  // The root
  // ---------------------------------------------------------------------------

  // ---------------------------------------------------------------------------
  // The loops of the root, on the values they read
  // ---------------------------------------------------------------------------

  /** The drag step on one draggable widget: capture the offset (and the origin) while it is zero, then follow the pointer `m`. */
  method FollowPointer(w0: Widget, m: Vec3) returns (w: Widget)
    ensures w == Follow(w0, m)
  {
    w := w0;
    if w.dragOffset == Zero3 {
      if w.resetAfterDrag {
        w := w.(dragOrigPos := w.position);
      }
      w := w.(dragOffset := Sub(w.position, m));
    }
    w := w.(position := Add(m, w.dragOffset));
  }

  /** The scan of the click branch: the nearest eligible widget of the mouse-over list. */
  method FindTop(mouseOver: seq<WidgetId>, store: map<WidgetId, Widget>, button2: bool) returns (top: Option<WidgetId>)
    ensures top == TopWidget(mouseOver, store, button2)
  {
    top := None;
    var i := 0;
    while i < |mouseOver|
      invariant 0 <= i <= |mouseOver|
      invariant top == TopWidget(mouseOver[..i], store, button2)
      invariant top.Some? ==> top.value in store
    {
      var w := mouseOver[i];
      assert mouseOver[..i + 1][..i] == mouseOver[..i];
      if w in store && (top.None? || store[w].position.z < store[top.value].position.z) && store[w].isSelectable {
        if store[w].isScroll {
          if button2 || store[w].touchControl {
            top := Some(w);
          }
        } else {
          top := Some(w);
        }
      }
      i := i + 1;
    }
    assert mouseOver[..|mouseOver|] == mouseOver;
  }

  /** One drawn widget's turn in the rebuild: `OnMouseOver` if the pointer is over it, the scroll reset, then its own update. */
  method RebuildWidget(w: WidgetId, a: Widget, over: set<WidgetId>) returns (hovered: seq<WidgetId>, events: seq<Event>, b: Widget)
    ensures hovered == (if w in over then [w] else [])
    ensures events == (if w in over then [MouseOver(w)] else []) + [UpdateWidget(w), Recalculate(w)]
    ensures b == if a.hasClip then a else a.(scrollOffset := Zero2)
  {
    hovered := [];
    events := [];
    b := a;
    if w in over {
      events := events + [MouseOver(w)];
      hovered := hovered + [w];
    }
    if !a.hasClip {
      b := a.(scrollOffset := Zero2);
    }
    events := events + [UpdateWidget(w), Recalculate(w)];
  }

  /** The widget loop of `UpdateWidgets`: the mouse-over list, the callbacks and the scroll resets. */
  method Rebuild(found: seq<WidgetId>, store: map<WidgetId, Widget>, over: set<WidgetId>)
    returns (mouseOver: seq<WidgetId>, events: seq<Event>, store': map<WidgetId, Widget>)
    ensures mouseOver == MouseOverOf(found, store, over)
    ensures events == RebuildEvents(found, store, over)
    ensures store' == ClearScroll(found, store)
  {
    mouseOver := [];
    events := [];
    store' := store;
    var i := 0;
    while i < |found|
      invariant 0 <= i <= |found|
      invariant mouseOver == MouseOverOf(found[..i], store, over)
      invariant events == RebuildEvents(found[..i], store, over)
      invariant store' == ClearScroll(found[..i], store)
    {
      var w := found[i];
      assert found[..i + 1][..i] == found[..i];
      if w in store {
        ClearScrollOnlyScroll(found[..i], store, w);
      }
      assert MouseOverOf(found[..i + 1], store, over) == mouseOver + (if Visited(store, w) && w in over then [w] else []);
      assert RebuildEvents(found[..i + 1], store, over) ==
        events + (if Visited(store, w) then (if w in over then [MouseOver(w)] else []) + [UpdateWidget(w), Recalculate(w)] else []);
      assert Visited(store, w) == (w in store' && store'[w].isDrawn);
      if w in store' && store'[w].isDrawn {
        var hovered, e, b := RebuildWidget(w, store'[w], over);
        mouseOver := mouseOver + hovered;
        events := events + e;
        store' := store'[w := b];
      } else {
        assert mouseOver + [] == mouseOver && events + [] == events;
      }
      i := i + 1;
    }
    assert found[..|found|] == found;
  }

  /** The skin loop: a skin submission for each active, drawn, non-empty widget. */
  method SkinLoop(ws: seq<WidgetId>, store: map<WidgetId, Widget>) returns (events: seq<Event>)
    ensures events == SkinEvents(ws, store)
  {
    events := [];
    var i := 0;
    while i < |ws|
      invariant 0 <= i <= |ws|
      invariant events == SkinEvents(ws[..i], store)
    {
      var w := ws[i];
      assert ws[..i + 1][..i] == ws[..i];
      if w in store && store[w].activeSelf && store[w].isDrawn && store[w].drawHeight > 0 && store[w].drawWidth > 0 {
        events := events + [DrawSkin(w)];
      }
      i := i + 1;
    }
    assert ws[..|ws|] == ws;
  }

  /** One widget's turn in the batch of font `font`. */
  method StyleWidget(a: Widget, w: WidgetId, font: nat) returns (events: seq<Event>, b: Widget)
    ensures events == VisitEvents(a, w, font) && b == Styled(a, font)
  {
    b := a;
    events := [];
    if !a.hasStyles {
      events := [DefaultStyles(w)];
      b := a.(hasStyles := true);
    } else if a.isDrawn && a.activeSelf {
      if a.currentStyle.Some? && a.currentStyle.value.fontIndex == font {
        if a.currentStyle.value.font.None? {
          b := a.(currentStyle := Some(a.currentStyle.value.(font := Some(font))));
        }
        events := [DrawText(w, font)];
      }
    }
  }

  /** The widget loop of one glyph batch. */
  method RowLoop(ws: seq<WidgetId>, store: map<WidgetId, Widget>, font: nat) returns (events: seq<Event>, store': map<WidgetId, Widget>)
    ensures (events, store') == TextRow(ws, store, font)
  {
    events := [];
    store' := store;
    var o := 0;
    while o < |ws|
      invariant 0 <= o <= |ws|
      invariant (events, store') == TextRow(ws[..o], store, font)
    {
      var w := ws[o];
      assert ws[..o + 1][..o] == ws[..o];
      if w in store' {
        var e, b := StyleWidget(store'[w], w, font);
        events := events + e;
        store' := store'[w := b];
      } else {
        assert events + [] == events;
      }
      o := o + 1;
    }
    assert ws[..|ws|] == ws;
  }

  /** The font loop: one glyph batch per slot, ending at the null dereference of an empty slot. */
  method FontLoop(ws: seq<WidgetId>, store: map<WidgetId, Widget>, fonts: seq<bool>) returns (p: Pass)
    ensures p == TextPasses(ws, store, fonts, |fonts|)
  {
    p := Pass([], store, true);
    var i := 0;
    while i < |fonts|
      invariant 0 <= i <= |fonts|
      invariant p == TextPasses(ws, store, fonts, i) && p.completed
    {
      if fonts[0] {
        if !fonts[i] {
          p := Pass(p.events + [Begin(FontBatch(i))], p.store, false);
          AbortIsFinal(ws, store, fonts, i + 1, |fonts|);
          return;
        }
        var e, s := RowLoop(ws, p.store, i);
        p := Pass(p.events + [Begin(FontBatch(i))] + e + [End], s, true);
      }
      i := i + 1;
    }
  }

  /** The vertices of one line under the clip rectangle. */
  method LineLoopBody(l: Line, clip: Rect, screenHeight: int) returns (events: seq<Event>)
    ensures events == LineVertices(l, clip, screenHeight)
  {
    var noClip := clip.width <= 0 || clip.height <= 0;
    var containsStart := Contains(clip, l.start);
    var containsEnd := Contains(clip, l.end);
    events := [];
    if noClip || containsStart {
      events := events + [Vertex(l.start.x, screenHeight - l.start.y)];
    } else if containsEnd {
      events := events + [Vertex(Clamp(l.start.x, clip.XMin(), clip.XMax()), Clamp(screenHeight - l.start.y, clip.YMin(), clip.YMax()))];
    }
    if noClip || containsEnd {
      events := events + [Vertex(l.end.x, screenHeight - l.end.y)];
    } else if containsStart {
      events := events + [Vertex(Clamp(l.end.x, clip.XMin(), clip.XMax()), Clamp(screenHeight - l.end.y, clip.YMin(), clip.YMax()))];
    }
  }

  /** The line loop: one line batch with each line's clipped endpoints, when there are lines. */
  method LineLoop(lines: seq<Line>, clip: Rect, screenHeight: int) returns (events: seq<Event>)
    ensures events == LinePass(lines, clip, screenHeight)
  {
    events := [];
    if |lines| > 0 {
      var vs := [];
      var i := 0;
      while i < |lines|
        invariant 0 <= i <= |lines|
        invariant vs == LinesVertices(lines[..i], clip, screenHeight)
      {
        assert lines[..i + 1][..i] == lines[..i];
        var v := LineLoopBody(lines[i], clip, screenHeight);
        vs := vs + v;
        i := i + 1;
      }
      assert lines[..|lines|] == lines;
      events := [Begin(LineBatch)] + vs + [End];
    }
  }

  /** The custom-draw loop: `DrawGL` for each non-null, active, drawn widget. */
  method CustomLoop(ws: seq<WidgetId>, store: map<WidgetId, Widget>) returns (events: seq<Event>)
    ensures events == GLEvents(ws, store)
  {
    events := [];
    var i := 0;
    while i < |ws|
      invariant 0 <= i <= |ws|
      invariant events == GLEvents(ws[..i], store)
    {
      var w := ws[i];
      assert ws[..i + 1][..i] == ws[..i];
      if w in store && store[w].activeSelf && store[w].isDrawn {
        events := events + [DrawGL(w)];
      }
      i := i + 1;
    }
    assert ws[..|ws|] == ws;
  }

  // ---------------------------------------------------------------------------
  // The root
  // ---------------------------------------------------------------------------

  class Root {
    var skin: Option<Skin>
    var currentPage: Option<PageId>
    var lines: seq<Line>
    var lineClip: Rect
    var isMouseOver: bool
    var dirtyCounter: int
    var widgets: Option<seq<WidgetId>>
    var mouseOver: seq<WidgetId>
    var downWidget: Option<WidgetId>
    /** Every widget object, by id; an id that is not here is null or destroyed. */
    var store: map<WidgetId, Widget>
    /** Every page object, by id. */
    var pages: map<PageId, Page>
    /** The callbacks made and the draw submissions, in order. */
    var log: seq<Event>
    /** The pages under the root, inactive ones included, in enumeration order. */
    const pageTree: seq<PageId>

    ghost predicate Valid()
      reads this
    {
      InTree(pageTree, pages) && (currentPage.Some? ==> currentPage.value in pages)
    }

    ghost function State(): Frame
      reads this
    {
      Frame(dirtyCounter, widgets, mouseOver, downWidget, currentPage, store, isMouseOver, log)
    }

    constructor (pageTree: seq<PageId>, pages: map<PageId, Page>, store: map<WidgetId, Widget>,
                 skin: Option<Skin>, lines: seq<Line>, lineClip: Rect, currentPage: Option<PageId>)
      requires InTree(pageTree, pages) && (currentPage.Some? ==> currentPage.value in pages)
      ensures Valid()
      ensures State() == Frame(0, None, [], None, currentPage, store, false, [])
      ensures this.pageTree == pageTree && this.pages == pages && this.skin == skin
      ensures this.lines == lines && this.lineClip == lineClip
    {
      this.pageTree := pageTree;
      this.pages := pages;
      this.store := store;
      this.skin := skin;
      this.lines := lines;
      this.lineClip := lineClip;
      this.currentPage := currentPage;
      isMouseOver := false;
      dirtyCounter := 0;
      widgets := None;
      mouseOver := [];
      downWidget := None;
      log := [];
    }

    // -------------------------------------------------------------------------
    // Page management
    // -------------------------------------------------------------------------

    /** `SetCurrentPage`: make `page` current and leave exactly it active among the enumerated pages. */
    method SetCurrentPage(page: Option<PageId>)
      requires Valid() && (page.Some? ==> page.value in pages)
      modifies this`currentPage, this`pages
      ensures Valid() && currentPage == page
      ensures pages == ShowOnly(pageTree, old(pages), page)
      ensures forall q :: q in pageTree ==> pages[q].active == (Some(q) == page)
      ensures forall q :: q in pages && q !in pageTree ==> pages[q] == old(pages)[q]
    {
      currentPage := page;
      var ps := pages;
      var i := 0;
      while i < |pageTree|
        invariant 0 <= i <= |pageTree|
        invariant InTree(pageTree[..i], pages)
        invariant ps == ShowOnly(pageTree[..i], pages, page)
      {
        var q := pageTree[i];
        assert pageTree[..i + 1][..i] == pageTree[..i];
        ps := ps[q := ps[q].(active := Some(q) == page)];
        i := i + 1;
      }
      assert pageTree[..|pageTree|] == pageTree;
      ShowOnlyExactly(pageTree, pages, page);
      pages := ps;
    }

    /**
     * `GoToPage`: exit and deactivate the current page, make the last page
     * named `name` current (keeping the old one when none is), activate and
     * start it, and mark the layout dirty.
     */
    method GoToPage(name: string)
      requires Valid()
      modifies this`currentPage, this`pages, this`log, this`dirtyCounter
      ensures Valid()
      ensures currentPage == Target(pageTree, old(pages), name, old(currentPage))
      ensures pages == Switched(old(pages), old(currentPage), currentPage)
      ensures log == old(log) + SwitchEvents(old(currentPage), currentPage)
      ensures dirtyCounter == 2
    {
      if currentPage.Some? {
        log := log + [ExitPage(currentPage.value)];
        pages := WithActive(pages, currentPage.value, false);
      }
      var target := currentPage;
      var i := 0;
      while i < |pageTree|
        invariant 0 <= i <= |pageTree|
        invariant InTree(pageTree[..i], pages)
        invariant target == Target(pageTree[..i], pages, name, old(currentPage))
      {
        var q := pageTree[i];
        assert pageTree[..i + 1][..i] == pageTree[..i];
        if pages[q].name == name {
          target := Some(q);
        }
        i := i + 1;
      }
      assert pageTree[..|pageTree|] == pageTree;
      LastNamedReadsNames(pageTree, pages, old(pages), name);
      currentPage := target;
      if currentPage.Some? {
        pages := WithActive(pages, currentPage.value, true);
        log := log + [StartPage(currentPage.value)];
      }
      SetDirty();
    }

    // -------------------------------------------------------------------------
    // Draw pass
    // -------------------------------------------------------------------------

    /**
     * `OnPostRender`: with a skin and a widget list, the skin batch, the
     * glyph batches, the line batch and the custom draws, in that order; a
     * font slot without a font ends the pass early.
     */
    method OnPostRender(screenHeight: int)
      modifies this`log, this`store
      ensures skin.Some? && widgets.Some? ==>
                var r := Render(widgets.value, old(store), skin.value.fonts, lines, lineClip, screenHeight);
                log == old(log) + r.events && store == r.store
      ensures !(skin.Some? && widgets.Some?) ==> log == old(log) && store == old(store)
    {
      if skin.Some? && widgets.Some? {
        var ws := widgets.value;
        var skinPart := SkinLoop(ws, store);
        var text := FontLoop(ws, store, skin.value.fonts);
        var head := [Begin(SkinBatch)] + skinPart + [End] + text.events;
        store := text.store;
        if !text.completed {
          log := log + head;
          return;
        }
        var linePart := LineLoop(lines, lineClip, screenHeight);
        var custom := CustomLoop(ws, store);
        log := log + (head + linePart + custom);
      }
    }

    // -------------------------------------------------------------------------
    // Update
    // -------------------------------------------------------------------------

    /** `Start`: when playing, start the current page, if there is one; nothing else changes. */
    method Start(isPlaying: bool)
      modifies this`log
      ensures log == old(log) + (if currentPage.Some? && isPlaying then [StartPage(currentPage.value)] else [])
    {
      if currentPage.Some? && isPlaying {
        log := log + [StartPage(currentPage.value)];
      }
    }

    /** `SetDirty()`: ask for two frames of full rebuild. */
    method SetDirty()
      modifies this`dirtyCounter
      ensures dirtyCounter == 2
    {
      dirtyCounter := 2;
    }

    /** `SetDirty(s)`: ask for `s` frames of full rebuild. */
    method SetDirtyCount(s: int)
      modifies this`dirtyCounter
      ensures dirtyCounter == s
    {
      dirtyCounter := s;
    }

    /** `ReleaseWidget`: forget the down widget. */
    method ReleaseWidget()
      modifies this`downWidget
      ensures downWidget.None?
    {
      downWidget := None;
    }

    /** `Update`: page update and pointer when playing with a current page, then the dirty branch or the plain rebuild. */
    method Update(inp: TickInput)
      modifies this`dirtyCounter, this`widgets, this`mouseOver, this`downWidget, this`store, this`isMouseOver, this`log
      ensures State() == TickFrame(old(State()), inp, skin.Some?)
    {
      if inp.isPlaying && currentPage.Some? {
        log := log + [UpdatePage(currentPage.value)];
        UpdateMouse(inp);
      }
      assert State() == PlayFrame(old(State()), inp);
      if dirtyCounter > 0 {
        if skin.None? {
          return;
        }
        UpdateWidgets(false, inp);
        dirtyCounter := dirtyCounter - 1;
      } else {
        UpdateWidgets(true, inp);
      }
    }

    /** `UpdateMouse`: press, release or drag, whichever comes first, then the escape key. */
    method UpdateMouse(inp: TickInput)
      modifies this`downWidget, this`store, this`dirtyCounter, this`log
      ensures State() == MouseFrame(old(State()), inp)
    {
      if widgets.None? {
        return;
      }
      ghost var f := State();
      ghost var r := MouseResult(downWidget, store, dirtyCounter, []);
      if Pressed(inp) {
        ClickBranch(inp);
        r := Press(mouseOver, old(downWidget), old(store), old(dirtyCounter), inp);
      } else if Released(inp) {
        ReleaseBranch(inp);
        r := Release(old(downWidget), old(store), old(dirtyCounter), inp);
      } else if Held(inp) {
        DragBranch(inp);
        r := Drag(old(downWidget), old(store), old(dirtyCounter), inp);
      }
      assert downWidget == r.down && store == r.store && dirtyCounter == r.dirty && log == old(log) + r.events;
      EscapeKey(inp);
      ghost var e := Escape(r, inp);
      assert e == MouseStep(f.mouseOver, f.down, f.store, f.dirty, inp);
      assert downWidget == e.down;
      assert log == f.log + e.events by {
        if inp.escape && Live(r.store, r.down) {
          assert f.log + e.events == (f.log + r.events) + [MouseCancel(r.down.value)];
        }
      }
    }

    /** The click branch: cancel a different live down widget, then press the top widget unless it is disabled. */
    method ClickBranch(inp: TickInput)
      modifies this`downWidget, this`log
      ensures var r := Press(mouseOver, old(downWidget), store, dirtyCounter, inp);
              downWidget == r.down && log == old(log) + r.events
    {
      var top := FindTop(mouseOver, store, inp.button2);
      if downWidget.Some? && downWidget.value in store && downWidget != top {
        log := log + [MouseCancel(downWidget.value)];
      }
      if top.Some? && !store[top.value].isDisabled {
        log := log + [MouseDown(top.value)];
        downWidget := top;
      }
    }

    /** The release branch: snap a reset-after-drag widget back, then release it over or outside. */
    method ReleaseBranch(inp: TickInput)
      modifies this`store, this`log
      ensures var r := Release(downWidget, old(store), dirtyCounter, inp);
              store == r.store && log == old(log) + r.events
    {
      if downWidget.Some? && downWidget.value in store {
        var d := downWidget.value;
        if store[d].resetAfterDrag && !store[d].isScroll {
          store := store[d := SnapBack(store[d])];
        }
        if (d in inp.over || TouchOf(inp) == Touching(Ended)) && !store[d].isDisabled {
          log := log + [MouseUp(d)];
        } else {
          log := log + [MouseCancel(d)];
        }
      }
    }

    /** The drag branch: tell the down widget, and move a draggable one with the pointer. */
    method DragBranch(inp: TickInput)
      modifies this`store, this`log, this`dirtyCounter
      ensures var r := Drag(downWidget, old(store), old(dirtyCounter), inp);
              store == r.store && dirtyCounter == r.dirty && log == old(log) + r.events
    {
      if downWidget.Some? && downWidget.value in store && !store[downWidget.value].isDisabled {
        var d := downWidget.value;
        log := log + [MouseDrag(d)];
        if store[d].isDraggable && !store[d].isScroll {
          var w := FollowPointer(store[d], MousePoint(inp));
          store := store[d := w];
          SetDirty();
        }
      }
    }

    /** The escape key: cancel and release a live down widget. */
    method EscapeKey(inp: TickInput)
      modifies this`downWidget, this`log
      ensures inp.escape && Live(store, old(downWidget)) ==> downWidget.None? && log == old(log) + [MouseCancel(old(downWidget).value)]
      ensures !(inp.escape && Live(store, old(downWidget))) ==> downWidget == old(downWidget) && log == old(log)
    {
      if inp.escape && downWidget.Some? && downWidget.value in store {
        log := log + [MouseCancel(downWidget.value)];
        ReleaseWidget();
      }
    }

    /**
     * `UpdateWidgets`: with a current page, take the page's widgets, clear and
     * refill the mouse-over list, zero the scroll offsets of widgets without a
     * clip target, and say whether the pointer is over any widget.
     */
    method UpdateWidgets(onlyPositions: bool, inp: TickInput)
      modifies this`widgets, this`mouseOver, this`store, this`log, this`isMouseOver
      ensures State() == WidgetsFrame(old(State()), inp)
    {
      if currentPage.None? {
        return;
      }
      mouseOver := [];
      widgets := Some(inp.found);
      var mo, events, st := Rebuild(inp.found, store, inp.over);
      mouseOver := mo;
      log := log + events;
      store := st;
      isMouseOver := |mouseOver| > 0;
    }
  }
}
