/**
 * The records the GUI root reads and writes: widgets and pages (plain records
 * kept in maps keyed by id), the event log that stands for widget callbacks and
 * draw submissions, and the per-tick input record that stands for Unity's
 * `Input` and `Screen` queries.
 */
module Scene {
  import opened Geometry

  datatype Option<T> = None | Some(value: T)

  type WidgetId = nat
  type PageId = nat

  /** The text part of a widget's current style: its font index and the font bound to it, if any. */
  datatype Style = Style(fontIndex: int, font: Option<nat>)

  /**
   * The part of an `OGWidget` the root touches. `isScroll` stands for "is an
   * `OGScrollView`", `touchControl` is that scroll view's flag, `hasClip` is
   * "`clipTo` is set", `hasStyles` is "`styles` is not null" and
   * `currentStyle` is `currentStyle` (with its text settings).
   */
  datatype Widget = Widget(
    activeSelf: bool,
    isDrawn: bool,
    isSelectable: bool,
    isDisabled: bool,
    isScroll: bool,
    touchControl: bool,
    isDraggable: bool,
    resetAfterDrag: bool,
    hasClip: bool,
    position: Vec3,
    dragOffset: Vec3,
    dragOrigPos: Vec3,
    scrollOffset: Vec2,
    drawWidth: int,
    drawHeight: int,
    hasStyles: bool,
    currentStyle: Option<Style>)

  /** An `OGPage`: its name and whether its game object is active. */
  datatype Page = Page(name: string, active: bool)

  /** The primitive batch a `GL.Begin` opens: the skin quads, one font's glyph quads, or the lines. */
  datatype Batch = SkinBatch | FontBatch(font: nat) | LineBatch

  /** What the root asks of collaborators, in the order it asks. */
  datatype Event =
    | UpdatePage(page: PageId)
    | StartPage(page: PageId)
    | ExitPage(page: PageId)
    | MouseOver(w: WidgetId)
    | MouseDown(w: WidgetId)
    | MouseUp(w: WidgetId)
    | MouseDrag(w: WidgetId)
    | MouseCancel(w: WidgetId)
    | UpdateWidget(w: WidgetId)
    | Recalculate(w: WidgetId)
    | Begin(batch: Batch)
    | End
    | DrawSkin(w: WidgetId)
    | DefaultStyles(w: WidgetId)
    | DrawText(w: WidgetId, font: nat)
    | Vertex(x: int, y: int)
    | DrawGL(w: WidgetId)

  /** Number of occurrences of `e` in `s`. */
  function Count(s: seq<Event>, e: Event): nat {
    if s == [] then 0 else Count(s[..|s| - 1], e) + (if s[|s| - 1] == e then 1 else 0)
  }

  lemma {:induction false} CountAppend(a: seq<Event>, b: seq<Event>, e: Event)
    ensures Count(a + b, e) == Count(a, e) + Count(b, e)
    decreases |b|
  {
    if b == [] {
      assert a + b == a;
    } else {
      assert (a + b)[..|a + b| - 1] == a + b[..|b| - 1];
      CountAppend(a, b[..|b| - 1], e);
    }
  }

  /** A `TouchPhase`. */
  datatype Phase = Began | Moved | Stationary | Ended | Canceled

  /** What `GetTouch` reports: no touch (the source's `-1`) or the phase of the first touch. */
  datatype Touch = NoTouch | Touching(phase: Phase)

  /**
   * One tick's view of the outside world: the mouse-button edges and levels of
   * buttons 0 and 2, the touches, the escape key, the pointer, the screen
   * height, which widgets `CheckMouseOver` holds for, and the widgets
   * `GetComponentsInChildren` finds under the current page, in order.
   */
  datatype TickInput = TickInput(
    isPlaying: bool,
    buttonDown0: bool, buttonDown2: bool,
    buttonUp0: bool, buttonUp2: bool,
    button0: bool, button2: bool,
    touchCount: nat, firstPhase: Phase,
    escape: bool,
    mouse: Vec2,
    screenHeight: int,
    over: set<WidgetId>,
    found: seq<WidgetId>)

  /** No widget appears twice in the list. */
  predicate Distinct(ws: seq<WidgetId>) {
    forall i, j :: 0 <= i < j < |ws| ==> ws[i] != ws[j]
  }

  /** `GetTouch`: no touch when there is none, otherwise the first touch's phase. */
  function GetTouch(touchCount: nat, firstPhase: Phase): (t: Touch)
    ensures t.NoTouch? <==> touchCount < 1
    ensures t.Touching? ==> t.phase == firstPhase
  {
    if touchCount < 1 then NoTouch else Touching(firstPhase)
  }

  function TouchOf(inp: TickInput): Touch {
    GetTouch(inp.touchCount, inp.firstPhase)
  }

  /** The click test of `UpdateMouse`: a press of button 0 or 2, or a touch that began. */
  predicate Pressed(inp: TickInput) {
    inp.buttonDown0 || inp.buttonDown2 || TouchOf(inp) == Touching(Began)
  }

  /** The release test: a release of button 0 or 2, or a touch that ended or was cancelled. */
  predicate Released(inp: TickInput) {
    inp.buttonUp0 || inp.buttonUp2 || TouchOf(inp) == Touching(Ended) || TouchOf(inp) == Touching(Canceled)
  }

  /** The drag test: button 0 or 2 held, or a touch that moved. */
  predicate Held(inp: TickInput) {
    inp.button0 || inp.button2 || TouchOf(inp) == Touching(Moved)
  }

  /** A tick whose pointer branch is the drag branch. */
  predicate DragTick(inp: TickInput) {
    !Pressed(inp) && !Released(inp) && Held(inp)
  }

  /** No mouse button is pressed, released or held this tick. */
  predicate NoButtons(inp: TickInput) {
    !inp.buttonDown0 && !inp.buttonDown2 && !inp.buttonUp0 && !inp.buttonUp2 && !inp.button0 && !inp.button2
  }

  /**
   * On a touch device (no mouse button active), the first touch alone picks
   * the branch: it began for a press, ended or was cancelled for a release,
   * moved for a drag. At most one of the three holds, and none without a
   * touch or with a stationary one.
   */
  lemma TouchBranchesExclusive(inp: TickInput)
    requires NoButtons(inp)
    ensures Pressed(inp) <==> inp.touchCount >= 1 && inp.firstPhase == Began
    ensures Released(inp) <==> inp.touchCount >= 1 && (inp.firstPhase == Ended || inp.firstPhase == Canceled)
    ensures Held(inp) <==> inp.touchCount >= 1 && inp.firstPhase == Moved
    ensures !(Pressed(inp) && Released(inp)) && !(Pressed(inp) && Held(inp)) && !(Released(inp) && Held(inp))
    ensures DragTick(inp) <==> Held(inp)
    ensures inp.touchCount < 1 || inp.firstPhase == Stationary ==> !Pressed(inp) && !Released(inp) && !Held(inp)
  {
  }

  /** `Input.mousePosition` with y flipped to the GUI's top-down origin (its z is always 0). */
  function MousePoint(inp: TickInput): Vec3 {
    Vec3(inp.mouse.x, inp.screenHeight - inp.mouse.y, 0)
  }
}
