/**
 * The line pass of `OnPostRender`: each line emits a vertex per endpoint,
 * clipped against `lineClip` by dropping or clamping that endpoint.
 */
module LineClip {
  import opened Geometry
  import opened Scene

  /** An `OGLine`: two endpoints in screen space with y measured downwards. */
  datatype Line = Line(start: Vec3, end: Vec3)

  /** Clipping is off when the clip rectangle has no area. */
  predicate NoClip(clip: Rect) {
    clip.width <= 0 || clip.height <= 0
  }

  /** The vertex an endpoint `p` emits as it is: x kept, y flipped against the screen height. */
  function Flipped(p: Vec3, screenHeight: int): Event {
    Vertex(p.x, screenHeight - p.y)
  }

  /** The vertex an endpoint emits when clamped: the flipped point moved into the clip rectangle. */
  function Clamped(p: Vec3, clip: Rect, screenHeight: int): Event {
    Vertex(Clamp(p.x, clip.XMin(), clip.XMax()), Clamp(screenHeight - p.y, clip.YMin(), clip.YMax()))
  }

  /**
   * The rule for one endpoint: as it is when clipping is off or it is inside;
   * clamped when only the other endpoint is inside; nothing otherwise.
   * Containment is tested on the endpoint before its y is flipped.
   */
  function EndpointVertex(p: Vec3, selfInside: bool, otherInside: bool, clip: Rect, screenHeight: int): seq<Event> {
    if NoClip(clip) || selfInside then [Flipped(p, screenHeight)]
    else if otherInside then [Clamped(p, clip, screenHeight)]
    else []
  }

  /** The vertices one line emits: its start's, then its end's. */
  function LineVertices(l: Line, clip: Rect, screenHeight: int): seq<Event> {
    var inStart := Contains(clip, l.start);
    var inEnd := Contains(clip, l.end);
    EndpointVertex(l.start, inStart, inEnd, clip, screenHeight) + EndpointVertex(l.end, inEnd, inStart, clip, screenHeight)
  }

  /** A line some vertex of which is emitted: clipping is off or one endpoint is inside. */
  predicate Emits(l: Line, clip: Rect) {
    NoClip(clip) || Contains(clip, l.start) || Contains(clip, l.end)
  }

  function LinesVertices(lines: seq<Line>, clip: Rect, screenHeight: int): seq<Event> {
    if lines == [] then []
    else LinesVertices(lines[..|lines| - 1], clip, screenHeight) + LineVertices(lines[|lines| - 1], clip, screenHeight)
  }

  /** The whole line pass: nothing for no lines, otherwise one line batch. */
  function LinePass(lines: seq<Line>, clip: Rect, screenHeight: int): seq<Event> {
    if |lines| == 0 then [] else [Begin(LineBatch)] + LinesVertices(lines, clip, screenHeight) + [End]
  }

  /** Number of lines that emit. */
  function EmittingLines(lines: seq<Line>, clip: Rect): nat {
    if lines == [] then 0
    else EmittingLines(lines[..|lines| - 1], clip) + (if Emits(lines[|lines| - 1], clip) then 1 else 0)
  }

  /** A vertex inside the closed clip rectangle. */
  predicate InClosedRect(e: Event, clip: Rect) {
    e.Vertex? && clip.XMin() <= e.x <= clip.XMax() && clip.YMin() <= e.y <= clip.YMax()
  }

  // ---------------------------------------------------------------------------
  // Properties
  // ---------------------------------------------------------------------------

  /** A line emits two vertices or none, never one, and two exactly when it emits at all. */
  lemma LineEmitsPairOrNothing(l: Line, clip: Rect, screenHeight: int)
    ensures |LineVertices(l, clip, screenHeight)| == (if Emits(l, clip) then 2 else 0)
  {
  }

  /** With clipping off, both endpoints are emitted as they are, y-flipped. */
  lemma NoClipEmitsBoth(l: Line, clip: Rect, screenHeight: int)
    requires NoClip(clip)
    ensures LineVertices(l, clip, screenHeight) == [Flipped(l.start, screenHeight), Flipped(l.end, screenHeight)]
  {
  }

  /** Both endpoints inside: both emitted as they are. */
  lemma BothInsideEmitsBoth(l: Line, clip: Rect, screenHeight: int)
    requires Contains(clip, l.start) && Contains(clip, l.end)
    ensures LineVertices(l, clip, screenHeight) == [Flipped(l.start, screenHeight), Flipped(l.end, screenHeight)]
  {
  }

  /** Clipping on and neither endpoint inside: nothing is emitted. */
  lemma NeitherInsideEmitsNothing(l: Line, clip: Rect, screenHeight: int)
    requires !NoClip(clip) && !Contains(clip, l.start) && !Contains(clip, l.end)
    ensures LineVertices(l, clip, screenHeight) == []
  {
  }

  /**
   * Exactly one endpoint inside: that one is emitted as it is and the other
   * clamped, and the clamped vertex lies in the closed clip rectangle.
   */
  lemma OneInsideClampsOther(l: Line, clip: Rect, screenHeight: int)
    requires !NoClip(clip) && Contains(clip, l.start) != Contains(clip, l.end)
    ensures var v := LineVertices(l, clip, screenHeight);
            && |v| == 2
            && (Contains(clip, l.start) ==>
                  v[0] == Flipped(l.start, screenHeight) && v[1] == Clamped(l.end, clip, screenHeight) && InClosedRect(v[1], clip))
            && (Contains(clip, l.end) ==>
                  v[0] == Clamped(l.start, clip, screenHeight) && v[1] == Flipped(l.end, screenHeight) && InClosedRect(v[0], clip))
  {
  }

  /**
   * Containment is decided on the unflipped point while the emitted vertex is
   * flipped: an endpoint inside the clip rectangle can be emitted outside it,
   * next to a clamped partner that lies inside.
   */
  lemma ContainsTestedBeforeFlip()
    ensures var clip := Rect(0, 0, 10, 10);
            var l := Line(Vec3(5, 5, 0), Vec3(50, 50, 0));
            && Contains(clip, l.start)
            && LineVertices(l, clip, 100) == [Vertex(5, 95), Vertex(10, 10)]
            && !InClosedRect(Vertex(5, 95), clip)
  {
    var clip := Rect(0, 0, 10, 10);
    var l := Line(Vec3(5, 5, 0), Vec3(50, 50, 0));
    assert Contains(clip, l.start);
    assert !Contains(clip, l.end);
    assert EndpointVertex(l.start, true, false, clip, 100) == [Vertex(5, 95)];
    assert Clamp(50, 0, 10) == 10;
    assert EndpointVertex(l.end, false, true, clip, 100) == [Vertex(10, 10)];
  }

  /** The pass emits all its vertices in pairs, two for every line that emits. */
  lemma {:induction false} LinesVerticesCount(lines: seq<Line>, clip: Rect, screenHeight: int)
    ensures |LinesVertices(lines, clip, screenHeight)| == 2 * EmittingLines(lines, clip)
    ensures forall i :: 0 <= i < |LinesVertices(lines, clip, screenHeight)| ==> LinesVertices(lines, clip, screenHeight)[i].Vertex?
    decreases |lines|
  {
    if lines != [] {
      LinesVerticesCount(lines[..|lines| - 1], clip, screenHeight);
      LineEmitsPairOrNothing(lines[|lines| - 1], clip, screenHeight);
    }
  }

  /** With clipping on, every vertex the pass emits from a clamped endpoint lies in the closed clip rectangle. */
  lemma {:induction false} ClampedVerticesInRect(lines: seq<Line>, clip: Rect, screenHeight: int)
    requires !NoClip(clip)
    ensures forall l, e ::
              (l in lines && e in LineVertices(l, clip, screenHeight)
               && e != Flipped(l.start, screenHeight) && e != Flipped(l.end, screenHeight)) ==> InClosedRect(e, clip)
  {
    forall l, e | l in lines && e in LineVertices(l, clip, screenHeight)
      && e != Flipped(l.start, screenHeight) && e != Flipped(l.end, screenHeight)
      ensures InClosedRect(e, clip)
    {
      if Contains(clip, l.start) != Contains(clip, l.end) {
        OneInsideClampsOther(l, clip, screenHeight);
      }
    }
  }
}
