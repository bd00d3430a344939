/**
 * The draw pass of `OnPostRender` as a trace: the skin batch, one glyph batch
 * per font slot, the line batch, then the custom `DrawGL` calls.
 */
module DrawPass {
  import opened Geometry
  import opened Scene
  import opened LineClip

  /** An `OGSkin` as the draw pass sees it: whether each font slot holds a font. */
  datatype Skin = Skin(fonts: seq<bool>)

  /** What a (part of the) pass produces: its events, the widget store after it, and whether it ran to the end. */
  datatype Pass = Pass(events: seq<Event>, store: map<WidgetId, Widget>, completed: bool)

  // ---------------------------------------------------------------------------
  // Skin pass and custom draws
  // ---------------------------------------------------------------------------

  /** A widget that submits its skin: not null, active, drawn and of non-zero size. */
  predicate SkinDrawn(store: map<WidgetId, Widget>, w: WidgetId) {
    w in store && store[w].activeSelf && store[w].isDrawn && store[w].drawHeight > 0 && store[w].drawWidth > 0
  }

  function SkinEvents(ws: seq<WidgetId>, store: map<WidgetId, Widget>): (r: seq<Event>)
    ensures forall i :: 0 <= i < |r| ==> r[i].DrawSkin?
    ensures forall w :: DrawSkin(w) in r <==> w in ws && SkinDrawn(store, w)
  {
    if ws == [] then []
    else
      var w := ws[|ws| - 1];
      var r := SkinEvents(ws[..|ws| - 1], store) + (if SkinDrawn(store, w) then [DrawSkin(w)] else []);
      assert ws == ws[..|ws| - 1] + [w];
      r
  }

  /** A widget that gets its custom draw: not null, active and drawn. */
  predicate GLDrawn(store: map<WidgetId, Widget>, w: WidgetId) {
    w in store && store[w].activeSelf && store[w].isDrawn
  }

  function GLEvents(ws: seq<WidgetId>, store: map<WidgetId, Widget>): (r: seq<Event>)
    ensures forall i :: 0 <= i < |r| ==> r[i].DrawGL?
    ensures forall w :: DrawGL(w) in r <==> w in ws && GLDrawn(store, w)
  {
    if ws == [] then []
    else
      var w := ws[|ws| - 1];
      var r := GLEvents(ws[..|ws| - 1], store) + (if GLDrawn(store, w) then [DrawGL(w)] else []);
      assert ws == ws[..|ws| - 1] + [w];
      r
  }

  // ---------------------------------------------------------------------------
  // Glyph passes
  // ---------------------------------------------------------------------------

  /**
   * What the glyph passes may change in a widget: its styles become set and
   * its current style's font becomes bound; nothing else, and a style keeps
   * its font index.
   */
  predicate Restyled(a: Widget, b: Widget) {
    && b == a.(hasStyles := b.hasStyles, currentStyle := b.currentStyle)
    && (a.hasStyles ==> b.hasStyles)
    && (a.currentStyle.None? <==> b.currentStyle.None?)
    && (a.currentStyle.Some? ==> b.currentStyle.value.fontIndex == a.currentStyle.value.fontIndex)
  }

  /** A drawn, active widget whose current style asks for font slot `font`. */
  predicate WritesIn(a: Widget, font: nat) {
    a.isDrawn && a.activeSelf && a.currentStyle.Some? && a.currentStyle.value.fontIndex == font
  }

  /** A style with font `font` bound to it when it had none. */
  function BindFont(s: Style, font: nat): Style {
    if s.font.None? then s.(font := Some(font)) else s
  }

  /** What one widget asks for in the batch of font `font`: default styles when it has none, else its text if it writes in that font. */
  function VisitEvents(a: Widget, w: WidgetId, font: nat): seq<Event> {
    if !a.hasStyles then [DefaultStyles(w)]
    else if WritesIn(a, font) then [DrawText(w, font)]
    else []
  }

  /** The widget after its turn in the batch: styles set, and the font bound to a style that writes in it. */
  function Styled(a: Widget, font: nat): Widget {
    a.(hasStyles := true,
       currentStyle := if a.hasStyles && WritesIn(a, font) then Some(BindFont(a.currentStyle.value, font)) else a.currentStyle)
  }

  /** One widget of the list in the batch of font `font`; null entries are skipped. */
  function TextVisit(store: map<WidgetId, Widget>, font: nat, w: WidgetId): (seq<Event>, map<WidgetId, Widget>) {
    if w !in store then ([], store)
    else (VisitEvents(store[w], w, font), store[w := Styled(store[w], font)])
  }

  /** The widgets' part of the batch of font `font`. */
  function TextRow(ws: seq<WidgetId>, store: map<WidgetId, Widget>, font: nat): (seq<Event>, map<WidgetId, Widget>)
    decreases |ws|
  {
    if ws == [] then ([], store)
    else
      var prev := TextRow(ws[..|ws| - 1], store, font);
      var step := TextVisit(prev.1, font, ws[|ws| - 1]);
      (prev.0 + step.0, step.1)
  }

  /**
   * The glyph batch of font slot `i`, after the passes `p` of the slots before
   * it. The slot is skipped when slot 0 holds no font (the guard tests slot 0
   * whichever slot is drawn); a slot without a font while slot 0 has one makes
   * the pass dereference null right after opening the batch, which ends the
   * whole draw pass there.
   */
  function NextBatch(ws: seq<WidgetId>, fonts: seq<bool>, p: Pass, i: nat): Pass
    requires i < |fonts|
  {
    if !p.completed || !fonts[0] then p
    else if !fonts[i] then Pass(p.events + [Begin(FontBatch(i))], p.store, false)
    else
      var row := TextRow(ws, p.store, i);
      Pass(p.events + [Begin(FontBatch(i))] + row.0 + [End], row.1, true)
  }

  /** The glyph batches of font slots `0 .. k-1`. */
  function TextPasses(ws: seq<WidgetId>, store: map<WidgetId, Widget>, fonts: seq<bool>, k: nat): Pass
    requires k <= |fonts|
  {
    if k == 0 then Pass([], store, true)
    else NextBatch(ws, fonts, TextPasses(ws, store, fonts, k - 1), k - 1)
  }

  /** The whole draw pass over the widget list `ws`, once a skin and a widget list exist. */
  function Render(ws: seq<WidgetId>, store: map<WidgetId, Widget>, fonts: seq<bool>, lines: seq<Line>, clip: Rect, screenHeight: int): Pass {
    var text := TextPasses(ws, store, fonts, |fonts|);
    var head := [Begin(SkinBatch)] + SkinEvents(ws, store) + [End] + text.events;
    if !text.completed then Pass(head, text.store, false)
    else Pass(head + LinePass(lines, clip, screenHeight) + GLEvents(ws, text.store), text.store, true)
  }

  // ---------------------------------------------------------------------------
  // Glyph-pass properties
  // ---------------------------------------------------------------------------

  /** A widget of the store that may submit text in slot `f`. */
  predicate Writes(store: map<WidgetId, Widget>, w: WidgetId, f: nat) {
    w in store && WritesIn(store[w], f)
  }

  lemma CountSingle(e: Event, x: Event)
    ensures Count([e], x) == if e == x then 1 else 0
  {
    assert [e][..0] == [];
  }

  lemma StyledRestyles(a: Widget, font: nat)
    ensures Restyled(a, Styled(a, font))
  {
  }

  lemma UpdateRestyles(store: map<WidgetId, Widget>, w: WidgetId, a: Widget)
    requires w in store && Restyled(store[w], a)
    ensures forall x :: x in store ==> Restyled(store[x], store[w := a][x])
  {
  }

  /** One widget of a glyph batch: what it may emit and what it may change. */
  lemma TextVisitFacts(store: map<WidgetId, Widget>, font: nat, w: WidgetId)
    ensures var s := TextVisit(store, font, w);
            && s.1.Keys == store.Keys
            && (forall x :: x in store ==> Restyled(store[x], s.1[x]))
            && (forall x :: x in store ==> s.1[x].hasStyles == (store[x].hasStyles || x == w))
            && (s.0 == [DefaultStyles(w)] <==> w in store && !store[w].hasStyles)
            && (s.0 == [] || s.0 == [DefaultStyles(w)] || (s.0 == [DrawText(w, font)] && Writes(store, w, font)))
  {
    if w in store {
      StyledRestyles(store[w], font);
      UpdateRestyles(store, w, Styled(store[w], font));
    }
  }

  lemma RestyledTransitive(a: Widget, b: Widget, c: Widget)
    requires Restyled(a, b) && Restyled(b, c)
    ensures Restyled(a, c)
  {
  }

  /** One glyph batch emits only default-style requests and text of its own font from writing widgets, and only restyles. */
  lemma {:induction false} TextRowFacts(ws: seq<WidgetId>, store: map<WidgetId, Widget>, font: nat)
    ensures var r := TextRow(ws, store, font);
            && r.1.Keys == store.Keys
            && (forall x :: x in store ==> Restyled(store[x], r.1[x]))
            && (forall i :: 0 <= i < |r.0| ==> r.0[i].DefaultStyles? || (r.0[i].DrawText? && r.0[i].font == font))
            && (forall x: WidgetId, f: nat :: DrawText(x, f) in r.0 ==> f == font && Writes(store, x, f))
    decreases |ws|
  {
    if ws != [] {
      var prev := TextRow(ws[..|ws| - 1], store, font);
      TextRowFacts(ws[..|ws| - 1], store, font);
      var w := ws[|ws| - 1];
      TextVisitFacts(prev.1, font, w);
      var step := TextVisit(prev.1, font, w);
      forall x | x in store ensures Restyled(store[x], step.1[x]) {
        RestyledTransitive(store[x], prev.1[x], step.1[x]);
      }
      forall i | 0 <= i < |prev.0 + step.0|
        ensures (prev.0 + step.0)[i].DefaultStyles? || ((prev.0 + step.0)[i].DrawText? && (prev.0 + step.0)[i].font == font)
      {
        if i >= |prev.0| {
          assert (prev.0 + step.0)[i] == step.0[i - |prev.0|];
        }
      }
    }
  }

  /** A widget of the list asks for default styles in a glyph batch exactly when it had none, and has them afterwards. */
  lemma {:induction false} TextRowStylesOnce(ws: seq<WidgetId>, store: map<WidgetId, Widget>, font: nat, x: WidgetId)
    requires x in store
    ensures var r := TextRow(ws, store, font);
            && x in r.1
            && r.1[x].hasStyles == (store[x].hasStyles || x in ws)
            && Count(r.0, DefaultStyles(x)) == (if !store[x].hasStyles && x in ws then 1 else 0)
    decreases |ws|
  {
    TextRowFacts(ws, store, font);
    if ws != [] {
      var init := ws[..|ws| - 1];
      var w := ws[|ws| - 1];
      assert ws == init + [w];
      var prev := TextRow(init, store, font);
      TextRowStylesOnce(init, store, font, x);
      TextRowFacts(init, store, font);
      TextVisitFacts(prev.1, font, w);
      var step := TextVisit(prev.1, font, w);
      CountAppend(prev.0, step.0, DefaultStyles(x));
      if step.0 != [] {
        CountSingle(step.0[0], DefaultStyles(x));
        assert step.0 == [step.0[0]];
      }
    }
  }

  /** Once a glyph pass has stopped, the later font slots add nothing. */
  lemma {:induction false} AbortIsFinal(ws: seq<WidgetId>, store: map<WidgetId, Widget>, fonts: seq<bool>, k: nat, k2: nat)
    requires k <= k2 <= |fonts|
    requires !TextPasses(ws, store, fonts, k).completed
    ensures TextPasses(ws, store, fonts, k2) == TextPasses(ws, store, fonts, k)
    decreases k2
  {
    if k2 > k {
      AbortIsFinal(ws, store, fonts, k, k2 - 1);
    }
  }

  /**
   * The glyph passes run to the end exactly when slot 0 holds no font or every
   * slot holds one; with slot 0 empty they emit nothing and change nothing.
   */
  lemma {:induction false} TextPassesComplete(ws: seq<WidgetId>, store: map<WidgetId, Widget>, fonts: seq<bool>, k: nat)
    requires 0 < k <= |fonts|
    ensures TextPasses(ws, store, fonts, k).completed <==> !fonts[0] || forall i :: 0 <= i < k ==> fonts[i]
    ensures !fonts[0] ==> TextPasses(ws, store, fonts, k) == Pass([], store, true)
    decreases k
  {
    if k > 1 {
      TextPassesComplete(ws, store, fonts, k - 1);
    }
  }

  /** An event a glyph pass may log. */
  predicate TextKind(e: Event) {
    e.DefaultStyles? || e.DrawText? || e.Begin? || e.End?
  }

  /**
   * Glyph passes over the slots below `bound`, run on `store0`, that only
   * restyled widgets and only logged glyph-pass events, text coming from
   * writing widgets of those slots.
   */
  ghost predicate PassFacts(store0: map<WidgetId, Widget>, p: Pass, bound: nat) {
    && p.store.Keys == store0.Keys
    && (forall x :: x in store0 ==> Restyled(store0[x], p.store[x]))
    && (forall i :: 0 <= i < |p.events| ==> TextKind(p.events[i]))
    && (forall x: WidgetId, f: nat :: DrawText(x, f) in p.events ==> f < bound && Writes(store0, x, f))
  }

  lemma NextBatchFacts(ws: seq<WidgetId>, fonts: seq<bool>, store0: map<WidgetId, Widget>, p: Pass, i: nat)
    requires i < |fonts| && PassFacts(store0, p, i)
    ensures PassFacts(store0, NextBatch(ws, fonts, p, i), i + 1)
  {
    var open := [Begin(FontBatch(i))];
    if p.completed && fonts[0] && fonts[i] {
      var row := TextRow(ws, p.store, i);
      TextRowFacts(ws, p.store, i);
      var e := p.events + open + row.0 + [End];
      forall x | x in store0 ensures Restyled(store0[x], row.1[x]) {
        RestyledTransitive(store0[x], p.store[x], row.1[x]);
      }
      forall j | 0 <= j < |e| ensures TextKind(e[j]) {
        if j < |p.events| {
          assert e[j] == p.events[j];
        } else if |p.events| < j < |p.events| + 1 + |row.0| {
          assert e[j] == row.0[j - |p.events| - 1];
        }
      }
      forall x: WidgetId, f: nat | DrawText(x, f) in e ensures f < i + 1 && Writes(store0, x, f) {
        if DrawText(x, f) in row.0 {
          assert Writes(p.store, x, f);
        }
      }
    } else if p.completed && fonts[0] {
      var e := p.events + open;
      forall j | 0 <= j < |e| ensures TextKind(e[j]) {
        if j < |p.events| {
          assert e[j] == p.events[j];
        }
      }
    }
  }

  /** All the glyph passes together: what they emit, and that they only restyle. */
  lemma {:induction false} TextPassesFacts(ws: seq<WidgetId>, store: map<WidgetId, Widget>, fonts: seq<bool>, k: nat)
    requires k <= |fonts|
    ensures var p := TextPasses(ws, store, fonts, k);
            && p.store.Keys == store.Keys
            && (forall x :: x in store ==> Restyled(store[x], p.store[x]))
            && (forall i :: 0 <= i < |p.events| ==> TextKind(p.events[i]))
            && (forall x: WidgetId, f: nat :: DrawText(x, f) in p.events ==> f < k && Writes(store, x, f))
    decreases k
  {
    if k > 0 {
      TextPassesFacts(ws, store, fonts, k - 1);
      NextBatchFacts(ws, fonts, store, TextPasses(ws, store, fonts, k - 1), k - 1);
    }
  }

  /** One glyph batch asks a widget of the list for default styles exactly when it runs and the widget has none. */
  lemma NextBatchStyles(ws: seq<WidgetId>, fonts: seq<bool>, p: Pass, i: nat, x: WidgetId)
    requires i < |fonts| && x in p.store
    ensures var q := NextBatch(ws, fonts, p, i);
            var runs := p.completed && fonts[0] && fonts[i];
            && x in q.store
            && q.store[x].hasStyles == (p.store[x].hasStyles || (runs && x in ws))
            && Count(q.events, DefaultStyles(x)) == Count(p.events, DefaultStyles(x)) + (if runs && !p.store[x].hasStyles && x in ws then 1 else 0)
  {
    var e := DefaultStyles(x);
    var open := [Begin(FontBatch(i))];
    if p.completed && fonts[0] {
      CountSingle(open[0], e);
      if fonts[i] {
        var row := TextRow(ws, p.store, i);
        TextRowStylesOnce(ws, p.store, i, x);
        CountSingle(End, e);
        CountAppend4(p.events, open, row.0, [End], e);
      } else {
        CountAppend(p.events, open, e);
      }
    }
  }

  /**
   * Default styles are asked for once per widget of the list that lacks them,
   * in the first glyph batch (that of slot 0, which runs whenever slot 0 holds
   * a font), and never when slot 0 is empty.
   */
  lemma {:induction false} TextPassesStylesOnce(ws: seq<WidgetId>, store: map<WidgetId, Widget>, fonts: seq<bool>, k: nat, x: WidgetId)
    requires k <= |fonts| && x in store
    ensures var p := TextPasses(ws, store, fonts, k);
            var asked := 0 < k && fonts[0] && x in ws;
            && x in p.store
            && p.store[x].hasStyles == (store[x].hasStyles || asked)
            && Count(p.events, DefaultStyles(x)) == (if !store[x].hasStyles && asked then 1 else 0)
    decreases k
  {
    if k > 0 {
      TextPassesStylesOnce(ws, store, fonts, k - 1, x);
      NextBatchStyles(ws, fonts, TextPasses(ws, store, fonts, k - 1), k - 1, x);
    }
  }

  /**
   * In one glyph batch over a list without repeats, a widget submits its text
   * exactly when it is in the list, already had styles, and writes in that
   * batch's font; a widget outside the list is left as it was.
   */
  lemma {:induction false} TextRowDraws(ws: seq<WidgetId>, store: map<WidgetId, Widget>, font: nat, w: WidgetId)
    requires Distinct(ws) && w in store
    ensures var r := TextRow(ws, store, font);
            && (w !in ws ==> w in r.1 && r.1[w] == store[w])
            && (DrawText(w, font) in r.0 <==> w in ws && store[w].hasStyles && WritesIn(store[w], font))
    decreases |ws|
  {
    if ws != [] {
      var init := ws[..|ws| - 1];
      var x := ws[|ws| - 1];
      assert ws == init + [x];
      assert Distinct(init);
      TextRowDraws(init, store, font, w);
      TextRowFacts(init, store, font);
      var prev := TextRow(init, store, font);
      var step := TextVisit(prev.1, font, x);
      TextVisitFacts(prev.1, font, x);
      if x == w {
        assert w !in init;
      } else {
        assert DrawText(w, font) !in step.0;
        assert (w in ws) == (w in init);
      }
    }
  }

  /** One glyph batch adds the text of widget `w` in slot `f` only when it is the batch of slot `f`, it runs, and `w` then had styles and wrote in `f`. */
  lemma NextBatchDraws(ws: seq<WidgetId>, fonts: seq<bool>, p: Pass, i: nat, w: WidgetId, f: nat)
    requires i < |fonts| && Distinct(ws) && w in ws && w in p.store
    ensures DrawText(w, f) in NextBatch(ws, fonts, p, i).events <==>
              DrawText(w, f) in p.events || (p.completed && fonts[0] && fonts[i] && i == f && p.store[w].hasStyles && WritesIn(p.store[w], f))
  {
    if p.completed && fonts[0] && fonts[i] {
      TextRowFacts(ws, p.store, i);
      if i == f {
        TextRowDraws(ws, p.store, f, w);
      }
    }
  }

  /** The glyph batches keep a widget writing in the slot it wrote in, and give it styles once slot 0 has run over it. */
  lemma TextPassesKeepWriter(ws: seq<WidgetId>, store: map<WidgetId, Widget>, fonts: seq<bool>, k: nat, w: WidgetId, f: nat)
    requires k <= |fonts| && Writes(store, w, f)
    ensures var p := TextPasses(ws, store, fonts, k);
            && Writes(p.store, w, f)
            && p.store[w].hasStyles == (store[w].hasStyles || (0 < k && fonts[0] && w in ws))
  {
    TextPassesFacts(ws, store, fonts, k);
    TextPassesStylesOnce(ws, store, fonts, k, w);
  }

  /**
   * Over a list without repeats, with every font slot up to `f` present, a
   * widget of the list that writes in slot `f` has submitted its text after
   * the batches of slots below `k` exactly when slot `f` is among them and the
   * widget had styles when that batch ran: from the start, or given by the
   * batch of slot 0 in time for any later slot.
   */
  lemma {:induction false} TextPassesDraws(ws: seq<WidgetId>, store: map<WidgetId, Widget>, fonts: seq<bool>, k: nat, w: WidgetId, f: nat)
    requires Distinct(ws) && w in ws && Writes(store, w, f)
    requires k <= |fonts| && f < |fonts| && forall i :: 0 <= i <= f ==> fonts[i]
    ensures DrawText(w, f) in TextPasses(ws, store, fonts, k).events <==> f < k && (store[w].hasStyles || f > 0)
    decreases k
  {
    if k > 0 {
      var p := TextPasses(ws, store, fonts, k - 1);
      TextPassesDraws(ws, store, fonts, k - 1, w, f);
      TextPassesKeepWriter(ws, store, fonts, k - 1, w, f);
      NextBatchDraws(ws, fonts, p, k - 1, w, f);
      if k - 1 == f && f > 0 {
        TextPassesComplete(ws, store, fonts, f);
      }
    }
  }

  /**
   * Over a list without repeats, with every font slot up to `f` present, a
   * drawn, active widget of the list whose style asks for slot `f` submits its
   * text in that slot, except in slot 0 when it had no styles yet: the batch
   * of slot 0 gives it default styles instead, too late for that batch.
   */
  lemma RenderTextFromEveryWriter(ws: seq<WidgetId>, store: map<WidgetId, Widget>, fonts: seq<bool>, lines: seq<Line>, clip: Rect, screenHeight: int, w: WidgetId, f: nat)
    requires Distinct(ws) && w in ws && Writes(store, w, f)
    requires f < |fonts| && forall i :: 0 <= i <= f ==> fonts[i]
    ensures DrawText(w, f) in Render(ws, store, fonts, lines, clip, screenHeight).events <==> store[w].hasStyles || f > 0
  {
    var text := TextPasses(ws, store, fonts, |fonts|);
    TextPassesDraws(ws, store, fonts, |fonts|, w, f);
    assert DrawText(w, f) !in SkinEvents(ws, store);
    if text.completed {
      LinesVerticesCount(lines, clip, screenHeight);
      assert DrawText(w, f) !in LinePass(lines, clip, screenHeight);
      assert DrawText(w, f) !in GLEvents(ws, text.store);
    }
  }

  lemma CountAppend4(a: seq<Event>, b: seq<Event>, c: seq<Event>, d: seq<Event>, e: Event)
    ensures Count(a + b + c + d, e) == Count(a, e) + Count(b, e) + Count(c, e) + Count(d, e)
  {
    CountAppend(a, b, e);
    CountAppend(a + b, c, e);
    CountAppend(a + b + c, d, e);
  }

  // ---------------------------------------------------------------------------
  // Batches
  // ---------------------------------------------------------------------------

  /** The batches a log opens, in order. */
  function Batches(events: seq<Event>): seq<Batch> {
    if events == [] then []
    else Batches(events[..|events| - 1]) + (if events[|events| - 1].Begin? then [events[|events| - 1].batch] else [])
  }

  lemma {:induction false} BatchesAppend(a: seq<Event>, b: seq<Event>)
    ensures Batches(a + b) == Batches(a) + Batches(b)
    decreases |b|
  {
    if b == [] {
      assert a + b == a;
    } else {
      assert (a + b)[..|a + b| - 1] == a + b[..|b| - 1];
      BatchesAppend(a, b[..|b| - 1]);
    }
  }

  lemma {:induction false} NoBatches(events: seq<Event>)
    requires forall i :: 0 <= i < |events| ==> !events[i].Begin?
    ensures Batches(events) == []
    decreases |events|
  {
    if events != [] {
      NoBatches(events[..|events| - 1]);
    }
  }

  /** The glyph batches of slots `0 .. n-1`, in order. */
  function FontBatches(n: nat): seq<Batch> {
    if n == 0 then [] else FontBatches(n - 1) + [FontBatch(n - 1)]
  }

  /** One glyph batch that runs opens the batch of its slot and nothing else, and stops right after it when the slot is empty. */
  lemma NextBatchBatches(ws: seq<WidgetId>, fonts: seq<bool>, p: Pass, i: nat)
    requires i < |fonts| && p.completed && fonts[0]
    ensures var q := NextBatch(ws, fonts, p, i);
            && q.completed == fonts[i]
            && Batches(q.events) == Batches(p.events) + [FontBatch(i)]
            && (!fonts[i] ==> q.events == p.events + [Begin(FontBatch(i))])
  {
    var open := [Begin(FontBatch(i))];
    assert Batches(open) == [FontBatch(i)] by {
      assert open[..0] == [];
    }
    if fonts[i] {
      var row := TextRow(ws, p.store, i);
      TextRowFacts(ws, p.store, i);
      NoBatches(row.0);
      NoBatches([End]);
      BatchesAppend4(p.events, open, row.0, [End]);
    } else {
      BatchesAppend(p.events, open);
    }
  }

  /** A completed glyph pass opens one batch per font slot, in slot order, and none when slot 0 is empty. */
  lemma {:induction false} TextPassesBatches(ws: seq<WidgetId>, store: map<WidgetId, Widget>, fonts: seq<bool>, k: nat)
    requires k <= |fonts|
    requires TextPasses(ws, store, fonts, k).completed
    ensures Batches(TextPasses(ws, store, fonts, k).events) == if k == 0 || !fonts[0] then [] else FontBatches(k)
    decreases k
  {
    if k > 0 {
      var p := TextPasses(ws, store, fonts, k - 1);
      var q := TextPasses(ws, store, fonts, k);
      assert q == NextBatch(ws, fonts, p, k - 1);
      assert p.completed;
      TextPassesBatches(ws, store, fonts, k - 1);
      if fonts[0] {
        NextBatchBatches(ws, fonts, p, k - 1);
        assert Batches(q.events) == Batches(p.events) + [FontBatch(k - 1)];
      } else {
        assert q == p;
      }
    }
  }

  /**
   * When slot 0 holds a font and slot `j` is the first that does not, the
   * glyph passes open the batches of slots `0 .. j` and stop right after
   * opening that of slot `j`.
   */
  lemma TextPassesStopAt(ws: seq<WidgetId>, store: map<WidgetId, Widget>, fonts: seq<bool>, j: nat, k: nat)
    requires 0 < j < k <= |fonts| && !fonts[j]
    requires forall i :: 0 <= i < j ==> fonts[i]
    ensures var p := TextPasses(ws, store, fonts, k);
            && !p.completed
            && Batches(p.events) == FontBatches(j + 1)
            && |p.events| > 0 && p.events[|p.events| - 1] == Begin(FontBatch(j))
  {
    var p := TextPasses(ws, store, fonts, j);
    TextPassesComplete(ws, store, fonts, j);
    TextPassesBatches(ws, store, fonts, j);
    NextBatchBatches(ws, fonts, p, j);
    AbortIsFinal(ws, store, fonts, j + 1, k);
  }

  // ---------------------------------------------------------------------------
  // Whole-pass properties
  // ---------------------------------------------------------------------------

  /** The paint stage an event belongs to: skin 0, text 1, lines 2, custom draws 3; -1 for batch markers. */
  function Stage(e: Event): int {
    match e
    case DrawSkin(_) => 0
    case DefaultStyles(_) => 1
    case DrawText(_, _) => 1
    case Vertex(_, _) => 2
    case DrawGL(_) => 3
    case _ => -1
  }

  /** Every staged event comes no later than every event of a later stage. */
  ghost predicate StagesOrdered(events: seq<Event>) {
    forall i, j :: 0 <= i < j < |events| && Stage(events[i]) >= 0 && Stage(events[j]) >= 0 ==> Stage(events[i]) <= Stage(events[j])
  }

  ghost predicate StagesWithin(events: seq<Event>, lo: int, hi: int) {
    forall i :: 0 <= i < |events| && Stage(events[i]) >= 0 ==> lo <= Stage(events[i]) <= hi
  }

  lemma WithinConcat(a: seq<Event>, b: seq<Event>, lo: int, hi: int)
    requires StagesWithin(a, lo, hi) && StagesWithin(b, lo, hi)
    ensures StagesWithin(a + b, lo, hi)
  {
    forall i | 0 <= i < |a + b| && Stage((a + b)[i]) >= 0 ensures lo <= Stage((a + b)[i]) <= hi {
      if i < |a| {
        assert (a + b)[i] == a[i];
      } else {
        assert (a + b)[i] == b[i - |a|];
      }
    }
  }

  /** A part between two batch markers whose events all share stage `k`. */
  lemma Bracketed(open: Event, body: seq<Event>, k: int)
    requires Stage(open) == -1 && StagesWithin(body, k, k)
    ensures StagesWithin([open] + body + [End], k, k)
  {
    WithinConcat([open], body, k, k);
    WithinConcat([open] + body, [End], k, k);
  }

  lemma OrderedConcat(a: seq<Event>, b: seq<Event>, lo: int, mid: int, hi: int)
    requires lo <= mid <= hi
    requires StagesOrdered(a) && StagesOrdered(b)
    requires StagesWithin(a, lo, mid) && StagesWithin(b, mid, hi)
    ensures StagesOrdered(a + b) && StagesWithin(a + b, lo, hi)
  {
    forall i, j | 0 <= i < j < |a + b| && Stage((a + b)[i]) >= 0 && Stage((a + b)[j]) >= 0
      ensures Stage((a + b)[i]) <= Stage((a + b)[j])
    {
      if j < |a| {
        assert (a + b)[i] == a[i] && (a + b)[j] == a[j];
      } else if i >= |a| {
        assert (a + b)[i] == b[i - |a|] && (a + b)[j] == b[j - |a|];
      } else {
        assert (a + b)[i] == a[i] && (a + b)[j] == b[j - |a|];
      }
    }
    forall i | 0 <= i < |a + b| && Stage((a + b)[i]) >= 0 ensures lo <= Stage((a + b)[i]) <= hi {
      if i < |a| {
        assert (a + b)[i] == a[i];
      } else {
        assert (a + b)[i] == b[i - |a|];
      }
    }
  }

  lemma SingleStageOrdered(a: seq<Event>, k: int)
    requires StagesWithin(a, k, k)
    ensures StagesOrdered(a)
  {
  }

  lemma SkinStage(ws: seq<WidgetId>, store: map<WidgetId, Widget>)
    ensures var head := [Begin(SkinBatch)] + SkinEvents(ws, store) + [End];
            StagesWithin(head, 0, 0) && StagesOrdered(head)
  {
    Bracketed(Begin(SkinBatch), SkinEvents(ws, store), 0);
    SingleStageOrdered([Begin(SkinBatch)] + SkinEvents(ws, store) + [End], 0);
  }

  lemma TextStage(ws: seq<WidgetId>, store: map<WidgetId, Widget>, fonts: seq<bool>)
    ensures var t := TextPasses(ws, store, fonts, |fonts|).events;
            StagesWithin(t, 1, 1) && StagesOrdered(t)
  {
    TextPassesFacts(ws, store, fonts, |fonts|);
    SingleStageOrdered(TextPasses(ws, store, fonts, |fonts|).events, 1);
  }

  lemma LineStage(lines: seq<Line>, clip: Rect, screenHeight: int)
    ensures var lp := LinePass(lines, clip, screenHeight);
            StagesWithin(lp, 2, 2) && StagesOrdered(lp)
  {
    LinesVerticesCount(lines, clip, screenHeight);
    if |lines| > 0 {
      Bracketed(Begin(LineBatch), LinesVertices(lines, clip, screenHeight), 2);
    }
    SingleStageOrdered(LinePass(lines, clip, screenHeight), 2);
  }

  /**
   * Paint order: every skin submission precedes every text submission, which
   * precedes every line vertex, which precedes every custom draw.
   */
  lemma RenderStagesOrdered(ws: seq<WidgetId>, store: map<WidgetId, Widget>, fonts: seq<bool>, lines: seq<Line>, clip: Rect, screenHeight: int)
    ensures StagesOrdered(Render(ws, store, fonts, lines, clip, screenHeight).events)
  {
    var text := TextPasses(ws, store, fonts, |fonts|);
    var head := [Begin(SkinBatch)] + SkinEvents(ws, store) + [End];
    var events := Render(ws, store, fonts, lines, clip, screenHeight).events;
    SkinStage(ws, store);
    TextStage(ws, store, fonts);
    OrderedConcat(head, text.events, 0, 1, 1);
    if text.completed {
      var lp := LinePass(lines, clip, screenHeight);
      var gl := GLEvents(ws, text.store);
      assert events == head + text.events + lp + gl;
      LineStage(lines, clip, screenHeight);
      OrderedConcat(head + text.events, lp, 0, 2, 2);
      SingleStageOrdered(gl, 3);
      OrderedConcat(head + text.events + lp, gl, 0, 3, 3);
    } else {
      assert events == head + text.events;
    }
  }

  /** Exactly the active, drawn, non-zero-size widgets of the list submit their skin. */
  lemma RenderSkinExactly(ws: seq<WidgetId>, store: map<WidgetId, Widget>, fonts: seq<bool>, lines: seq<Line>, clip: Rect, screenHeight: int, w: WidgetId)
    ensures DrawSkin(w) in Render(ws, store, fonts, lines, clip, screenHeight).events <==> w in ws && SkinDrawn(store, w)
  {
    var text := TextPasses(ws, store, fonts, |fonts|);
    TextPassesFacts(ws, store, fonts, |fonts|);
    assert DrawSkin(w) !in text.events;
    if text.completed {
      LinesVerticesCount(lines, clip, screenHeight);
      assert DrawSkin(w) !in LinePass(lines, clip, screenHeight);
    }
  }

  /** A completed pass gives exactly the active, drawn widgets of the list their custom draw; a stopped one gives none. */
  lemma RenderCustomDrawsExactly(ws: seq<WidgetId>, store: map<WidgetId, Widget>, fonts: seq<bool>, lines: seq<Line>, clip: Rect, screenHeight: int, w: WidgetId)
    ensures var r := Render(ws, store, fonts, lines, clip, screenHeight);
            DrawGL(w) in r.events <==> r.completed && w in ws && GLDrawn(store, w)
  {
    var text := TextPasses(ws, store, fonts, |fonts|);
    TextPassesFacts(ws, store, fonts, |fonts|);
    assert DrawGL(w) !in text.events;
    assert DrawGL(w) !in SkinEvents(ws, store);
    if text.completed {
      LinesVerticesCount(lines, clip, screenHeight);
      assert DrawGL(w) !in LinePass(lines, clip, screenHeight);
      assert GLDrawn(text.store, w) == GLDrawn(store, w);
    }
  }

  /**
   * Only a drawn, active widget whose style asks for slot `f` submits text in
   * slot `f`, and only for a slot the skin has.
   */
  lemma RenderTextOnlyFromWriters(ws: seq<WidgetId>, store: map<WidgetId, Widget>, fonts: seq<bool>, lines: seq<Line>, clip: Rect, screenHeight: int, w: WidgetId, f: nat)
    requires DrawText(w, f) in Render(ws, store, fonts, lines, clip, screenHeight).events
    ensures f < |fonts| && Writes(store, w, f)
  {
    var text := TextPasses(ws, store, fonts, |fonts|);
    TextPassesFacts(ws, store, fonts, |fonts|);
    assert DrawText(w, f) !in SkinEvents(ws, store);
    if text.completed {
      LinesVerticesCount(lines, clip, screenHeight);
      assert DrawText(w, f) !in LinePass(lines, clip, screenHeight);
      assert DrawText(w, f) !in GLEvents(ws, text.store);
    }
  }

  /** A widget that is not drawn never submits skin, text or a custom draw. */
  lemma NotDrawnNeverDrawn(ws: seq<WidgetId>, store: map<WidgetId, Widget>, fonts: seq<bool>, lines: seq<Line>, clip: Rect, screenHeight: int, w: WidgetId)
    requires w in store && !store[w].isDrawn
    ensures var events := Render(ws, store, fonts, lines, clip, screenHeight).events;
            DrawSkin(w) !in events && DrawGL(w) !in events && forall f :: DrawText(w, f) !in events
  {
    RenderSkinExactly(ws, store, fonts, lines, clip, screenHeight, w);
    RenderCustomDrawsExactly(ws, store, fonts, lines, clip, screenHeight, w);
    forall f ensures DrawText(w, f) !in Render(ws, store, fonts, lines, clip, screenHeight).events {
      if DrawText(w, f) in Render(ws, store, fonts, lines, clip, screenHeight).events {
        RenderTextOnlyFromWriters(ws, store, fonts, lines, clip, screenHeight, w, f);
      }
    }
  }

  /**
   * A completed pass opens the skin batch, then one glyph batch per font slot
   * in order (none when slot 0 holds no font), then the line batch when there
   * are lines.
   */
  lemma RenderBatches(ws: seq<WidgetId>, store: map<WidgetId, Widget>, fonts: seq<bool>, lines: seq<Line>, clip: Rect, screenHeight: int)
    requires Render(ws, store, fonts, lines, clip, screenHeight).completed
    ensures Batches(Render(ws, store, fonts, lines, clip, screenHeight).events) ==
              [SkinBatch] + (if |fonts| == 0 || !fonts[0] then [] else FontBatches(|fonts|)) + (if |lines| > 0 then [LineBatch] else [])
  {
    var text := TextPasses(ws, store, fonts, |fonts|);
    var head := [Begin(SkinBatch)] + SkinEvents(ws, store) + [End];
    var lp := LinePass(lines, clip, screenHeight);
    var gl := GLEvents(ws, text.store);
    var tb := Batches(text.events);
    var events := Render(ws, store, fonts, lines, clip, screenHeight).events;
    assert events == head + text.events + lp + gl;
    BatchesAppend4(head, text.events, lp, gl);
    assert Batches(events) == Batches(head) + tb + Batches(lp) + Batches(gl);
    HeadBatches(ws, store);
    LinePassBatches(lines, clip, screenHeight);
    NoBatches(gl);
    assert Batches(events) == [SkinBatch] + tb + (if |lines| > 0 then [LineBatch] else []);
    TextPassesBatches(ws, store, fonts, |fonts|);
  }

  lemma BatchesAppend4(a: seq<Event>, b: seq<Event>, c: seq<Event>, d: seq<Event>)
    ensures Batches(a + b + c + d) == Batches(a) + Batches(b) + Batches(c) + Batches(d)
  {
    BatchesAppend(a, b);
    BatchesAppend(a + b, c);
    BatchesAppend(a + b + c, d);
  }

  lemma HeadBatches(ws: seq<WidgetId>, store: map<WidgetId, Widget>)
    ensures Batches([Begin(SkinBatch)] + SkinEvents(ws, store) + [End]) == [SkinBatch]
  {
    var open := [Begin(SkinBatch)];
    var skin := SkinEvents(ws, store);
    assert Batches(open) == [SkinBatch] by {
      assert open[..0] == [];
    }
    NoBatches(skin);
    NoBatches([End]);
    BatchesAppend(open, skin);
    BatchesAppend(open + skin, [End]);
  }

  lemma LinePassBatches(lines: seq<Line>, clip: Rect, screenHeight: int)
    ensures Batches(LinePass(lines, clip, screenHeight)) == if |lines| > 0 then [LineBatch] else []
  {
    if |lines| > 0 {
      var lv := LinesVertices(lines, clip, screenHeight);
      LinesVerticesCount(lines, clip, screenHeight);
      NoBatches(lv);
      NoBatches([End]);
      var open := [Begin(LineBatch)];
      assert Batches(open) == [LineBatch] by {
        assert open[..0] == [];
      }
      BatchesAppend(open, lv);
      BatchesAppend(open + lv, [End]);
    }
  }

  lemma {:induction false} CountNone(events: seq<Event>, e: Event)
    requires e !in events
    ensures Count(events, e) == 0
    decreases |events|
  {
    if events != [] {
      assert events == events[..|events| - 1] + [events[|events| - 1]];
      CountNone(events[..|events| - 1], e);
    }
  }

  /** Outside the glyph passes, the draw pass asks for no default styles. */
  lemma RenderStylesFromText(ws: seq<WidgetId>, store: map<WidgetId, Widget>, fonts: seq<bool>, lines: seq<Line>, clip: Rect, screenHeight: int, e: Event)
    requires e.DefaultStyles?
    ensures Count(Render(ws, store, fonts, lines, clip, screenHeight).events, e) == Count(TextPasses(ws, store, fonts, |fonts|).events, e)
  {
    var text := TextPasses(ws, store, fonts, |fonts|);
    var head := [Begin(SkinBatch)] + SkinEvents(ws, store) + [End];
    var events := Render(ws, store, fonts, lines, clip, screenHeight).events;
    HeadNoStyles(ws, store, e);
    if text.completed {
      var lp := LinePass(lines, clip, screenHeight);
      var gl := GLEvents(ws, text.store);
      assert events == head + text.events + lp + gl;
      LinePassNoStyles(lines, clip, screenHeight, e);
      CountNone(gl, e);
      CountAppend4(head, text.events, lp, gl, e);
    } else {
      assert events == head + text.events;
      CountAppend(head, text.events, e);
    }
  }

  /**
   * A widget of the list that has no styles asks for them exactly once in a
   * pass when slot 0 holds a font, and otherwise never; one with styles never does.
   */
  lemma DefaultStylesOnce(ws: seq<WidgetId>, store: map<WidgetId, Widget>, fonts: seq<bool>, lines: seq<Line>, clip: Rect, screenHeight: int, x: WidgetId)
    requires x in store
    ensures Count(Render(ws, store, fonts, lines, clip, screenHeight).events, DefaultStyles(x)) ==
              (if !store[x].hasStyles && x in ws && 0 < |fonts| && fonts[0] then 1 else 0)
  {
    TextPassesStylesOnce(ws, store, fonts, |fonts|, x);
    RenderStylesFromText(ws, store, fonts, lines, clip, screenHeight, DefaultStyles(x));
  }

  lemma LinePassNoStyles(lines: seq<Line>, clip: Rect, screenHeight: int, e: Event)
    requires e.DefaultStyles?
    ensures Count(LinePass(lines, clip, screenHeight), e) == 0
  {
    LinesVerticesCount(lines, clip, screenHeight);
    CountNone(LinePass(lines, clip, screenHeight), e);
  }

  lemma HeadNoStyles(ws: seq<WidgetId>, store: map<WidgetId, Widget>, e: Event)
    requires e.DefaultStyles?
    ensures Count([Begin(SkinBatch)] + SkinEvents(ws, store) + [End], e) == 0
  {
    CountNone([Begin(SkinBatch)] + SkinEvents(ws, store) + [End], e);
  }
}
