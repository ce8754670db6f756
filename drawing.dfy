/** The fingertip drawing state machine that runs on every hand-pose prediction.

    The canvas is modelled as the list of segments stroked on it so far; the
    2D context's current stroke style and line width are part of the state
    because every prediction sets them and every stroke uses them. */
module Drawing {

  datatype Option<T> = None | Some(value: T)

  /** One landmark reported by the hand-pose detector (integer coordinates here). */
  datatype Landmark = Landmark(x: int, y: int, z: int)

  /** One detected hand: its landmarks in the detector's fixed order. */
  datatype Hand = Hand(landmarks: seq<Landmark>)

  /** A canvas position: the first two coordinates of a landmark. */
  datatype Point = Point(x: int, y: int)

  type Colour = string

  /** A path stroked on the canvas: beginPath, moveTo(from), lineTo(to), stroke,
      drawn with the context's stroke style and line width at that moment. */
  datatype Segment = Segment(from: Point, to: Point, colour: Colour, width: nat)

  /** Index of the index-finger tip among a hand's landmarks. */
  const IndexFingerTip: nat := 8
  /** Landmarks the detector reports per hand. */
  const LandmarksPerHand: nat := 21
  /** The rectangle erased by a clear. */
  const CanvasWidth: nat := 640
  const CanvasHeight: nat := 480
  /** A fresh 2D context's stroke style and line width. */
  const DefaultStrokeStyle: Colour := "#000000"
  const DefaultLineWidth: nat := 1

  /** One prediction event: the detected hands, and the colour-picker and
      stroke-width values read when the handler starts. */
  datatype Tick = Tick(hands: seq<Hand>, colour: Colour, width: nat)

  /** The detector's schema guarantee the handler relies on: the first hand,
      if any, has an index-finger-tip landmark (the detector reports
      `LandmarksPerHand` of them, more than the handler needs). */
  predicate FrameWellFormed(hands: seq<Hand>)
  {
    hands == [] || |hands[0].landmarks| > IndexFingerTip
  }

  predicate AllWellFormed(ts: seq<Tick>)
  {
    forall i :: 0 <= i < |ts| ==> FrameWellFormed(ts[i].hands)
  }

  /** The index-finger tip of the first hand; later hands are never looked at. */
  function Fingertip(hands: seq<Hand>): Landmark
    requires hands != [] && FrameWellFormed(hands)
  {
    hands[0].landmarks[IndexFingerTip]
  }

  function CanvasPoint(l: Landmark): Point
  {
    Point(l.x, l.y)
  }

  /** What the handler and the clear action share: the previous fingertip,
      the strokes on the canvas and the context's stroke settings. */
  datatype DrawingState = DrawingState(
    previous: Option<Landmark>,
    segments: seq<Segment>,
    strokeStyle: Colour,
    lineWidth: nat)

  const Initial := DrawingState(None, [], DefaultStrokeStyle, DefaultLineWidth)

  /** The segment stroked when the fingertip moves from `p` to the first hand of `t`. */
  function Stroke(p: Landmark, t: Tick): Segment
    requires t.hands != [] && FrameWellFormed(t.hands)
  {
    Segment(CanvasPoint(p), CanvasPoint(Fingertip(t.hands)), t.colour, t.width)
  }

  /** One prediction event handled: the stroke settings are taken from the
      controls first; an empty frame then forgets the previous point; a frame
      with a hand strokes from the previous point (if any) to the fingertip and
      remembers the fingertip. */
  function Step(s: DrawingState, t: Tick): (r: DrawingState)
    requires FrameWellFormed(t.hands)
    ensures r.strokeStyle == t.colour && r.lineWidth == t.width
    ensures t.hands == [] ==> r.previous == None && r.segments == s.segments
    ensures t.hands != [] ==> r.previous == Some(Fingertip(t.hands))
    ensures s.segments <= r.segments && |r.segments| <= |s.segments| + 1
    ensures |r.segments| == |s.segments| + 1 <==> s.previous.Some? && t.hands != []
    ensures |r.segments| == |s.segments| + 1 ==>
              r.segments[|s.segments|] == Stroke(s.previous.value, t)
  {
    var styled := s.(strokeStyle := t.colour, lineWidth := t.width);
    if t.hands == [] then
      styled.(previous := None)
    else
      var tip := Fingertip(t.hands);
      var drawn :=
        if s.previous.Some? then
          styled.segments + [Stroke(s.previous.value, t)]
        else styled.segments;
      styled.(previous := Some(tip), segments := drawn)
  }

  /** The clear action: erase the canvas and forget the previous point; the
      context's stroke settings are not part of what is erased. */
  function Cleared(s: DrawingState): DrawingState
  {
    s.(previous := None, segments := [])
  }

  /** A sequence of prediction events handled one after another. */
  function Run(s: DrawingState, ts: seq<Tick>): (r: DrawingState)
    requires AllWellFormed(ts)
    ensures s.segments <= r.segments
    ensures ts == [] ==> r == s
    decreases |ts|
  {
    if ts == [] then s else Run(Step(s, ts[0]), ts[1..])
  }

  /** Reference definition of what a run draws: one segment for every pair of
      adjacent events that both contain a hand, from the earlier fingertip to
      the later one, in the later event's colour and width. */
  function PairSegments(ts: seq<Tick>): seq<Segment>
    requires AllWellFormed(ts)
    decreases |ts|
  {
    if |ts| < 2 then []
    else
      var a, b := ts[|ts| - 2], ts[|ts| - 1];
      PairSegments(ts[..|ts| - 1]) +
        (if a.hands != [] && b.hands != [] then [Stroke(Fingertip(a.hands), b)] else [])
  }

  /** The segment a run draws on its first event (only when a previous point
      was already remembered before the run). */
  function LeadSegment(p: Option<Landmark>, ts: seq<Tick>): seq<Segment>
    requires AllWellFormed(ts)
  {
    if p.Some? && ts != [] && ts[0].hands != [] then [Stroke(p.value, ts[0])] else []
  }

  /** Events `i - 1` and `i` both contain a hand. */
  predicate HandPairAt(ts: seq<Tick>, i: nat)
    requires 0 < i < |ts|
  {
    ts[i - 1].hands != [] && ts[i].hands != []
  }

  /** The indices `i` such that events `i - 1` and `i` both contain a hand. */
  ghost function ContinuousPairs(ts: seq<Tick>): set<nat>
  {
    set i: nat | 0 < i < |ts| && HandPairAt(ts, i)
  }

  /** Two event sequences that differ at most in the hands after the first:
      same length, same control values, same emptiness, same first fingertip. */
  predicate SameFingertips(ts: seq<Tick>, us: seq<Tick>)
    requires AllWellFormed(ts) && AllWellFormed(us)
  {
    |ts| == |us| &&
    forall i :: 0 <= i < |ts| ==>
      ts[i].colour == us[i].colour && ts[i].width == us[i].width &&
      (ts[i].hands == [] <==> us[i].hands == []) &&
      (ts[i].hands != [] ==> Fingertip(ts[i].hands) == Fingertip(us[i].hands))
  }

  lemma {:induction false} RunAppend(s: DrawingState, a: seq<Tick>, b: seq<Tick>)
    requires AllWellFormed(a) && AllWellFormed(b)
    ensures AllWellFormed(a + b)
    ensures Run(s, a + b) == Run(Run(s, a), b)
    decreases |a|
  {
    assert forall i :: 0 <= i < |a + b| ==>
      (a + b)[i] == if i < |a| then a[i] else b[i - |a|];
    if a == [] {
      assert a + b == b;
    } else {
      assert (a + b)[0] == a[0];
      assert (a + b)[1..] == a[1..] + b;
      RunAppend(Step(s, a[0]), a[1..], b);
    }
  }

  lemma RunSnoc(s: DrawingState, ts: seq<Tick>, t: Tick)
    requires AllWellFormed(ts) && FrameWellFormed(t.hands)
    ensures AllWellFormed(ts + [t])
    ensures Run(s, ts + [t]) == Step(Run(s, ts), t)
  {
    RunAppend(s, ts, [t]);
    assert [t][1..] == [];
  }

  lemma WellFormedPrefix(ts: seq<Tick>, k: nat)
    requires AllWellFormed(ts) && k <= |ts|
    ensures AllWellFormed(ts[..k]) && AllWellFormed(ts[k..])
  {
  }

  /** After a non-empty run the remembered point and the stroke settings are
      those of the last event: its fingertip if it has a hand, absent if not. */
  lemma {:induction false} RunLastEvent(s: DrawingState, ts: seq<Tick>)
    requires AllWellFormed(ts) && ts != []
    ensures var r, t := Run(s, ts), ts[|ts| - 1];
      r.strokeStyle == t.colour && r.lineWidth == t.width &&
      r.previous == (if t.hands == [] then None else Some(Fingertip(t.hands)))
  {
    var n := |ts|;
    WellFormedPrefix(ts, n - 1);
    assert ts == ts[..n - 1] + [ts[n - 1]];
    RunSnoc(s, ts[..n - 1], ts[n - 1]);
  }

  /** What a run draws: the segments already there, then the segment from a
      remembered point to the first event's fingertip, then one segment per
      pair of adjacent events that both contain a hand. */
  lemma {:induction false} RunSegments(s: DrawingState, ts: seq<Tick>)
    requires AllWellFormed(ts)
    ensures Run(s, ts).segments == s.segments + LeadSegment(s.previous, ts) + PairSegments(ts)
    decreases |ts|
  {
    var n := |ts|;
    if n == 0 {
    } else if n == 1 {
      assert ts[1..] == [];
    } else {
      var init := ts[..n - 1];
      WellFormedPrefix(ts, n - 1);
      assert ts == init + [ts[n - 1]];
      RunSnoc(s, init, ts[n - 1]);
      RunSegments(s, init);
      RunLastEvent(s, init);
      assert init[0] == ts[0];
      assert init[|init| - 1] == ts[n - 2];
    }
  }

  /** One more event adds index `n - 1` to the continuous pairs exactly when
      it and the event before it both contain a hand. */
  lemma ContinuousPairsSnoc(ts: seq<Tick>)
    requires |ts| >= 2
    ensures var n := |ts|;
      ContinuousPairs(ts) ==
        ContinuousPairs(ts[..n - 1]) + (if HandPairAt(ts, n - 1) then {n - 1} else {})
    ensures |ts| - 1 !in ContinuousPairs(ts[..|ts| - 1])
  {
    var n := |ts|;
    var init := ts[..n - 1];
    var last: set<nat> := if HandPairAt(ts, n - 1) then {n - 1} else {};
    forall i: nat
      ensures i in ContinuousPairs(ts) <==> i in ContinuousPairs(init) + last
    {
      if 0 < i < n - 1 {
        assert init[i - 1] == ts[i - 1] && init[i] == ts[i];
      }
    }
  }

  /** Counting form: `PairSegments` has one segment per adjacent pair of
      events that both contain a hand. */
  lemma {:induction false} PairSegmentsCount(ts: seq<Tick>)
    requires AllWellFormed(ts)
    ensures |PairSegments(ts)| == |ContinuousPairs(ts)|
    decreases |ts|
  {
    var n := |ts|;
    if n < 2 {
      assert ContinuousPairs(ts) == {};
    } else {
      WellFormedPrefix(ts, n - 1);
      PairSegmentsCount(ts[..n - 1]);
      ContinuousPairsSnoc(ts);
    }
  }

  /** The invariant over frame sequences: starting with no remembered point
      (initially or after a clear), a run draws exactly one segment per pair
      of adjacent events that both contain a hand. */
  lemma SegmentsDrawnCount(s: DrawingState, ts: seq<Tick>)
    requires AllWellFormed(ts) && s.previous == None
    ensures |Run(s, ts).segments| == |s.segments| + |ContinuousPairs(ts)|
  {
    RunSegments(s, ts);
    PairSegmentsCount(ts);
  }

  /** Events with no hands never draw, and leave no remembered point. */
  lemma {:induction false} NoHandsDrawNothing(s: DrawingState, ts: seq<Tick>)
    requires AllWellFormed(ts)
    requires forall i :: 0 <= i < |ts| ==> ts[i].hands == []
    ensures Run(s, ts).segments == s.segments
    ensures ts != [] ==> Run(s, ts).previous == None
    decreases |ts|
  {
    if ts != [] {
      assert forall i :: 0 <= i < |ts| - 1 ==> ts[1..][i] == ts[i + 1];
      NoHandsDrawNothing(Step(s, ts[0]), ts[1..]);
      if |ts| > 1 {
      } else {
        assert ts[1..] == [];
      }
    }
  }

  /** When every event has a hand, the run draws a segment between every two
      consecutive fingertips, each in the later event's colour and width. */
  lemma {:induction false} UnbrokenRunDrawsEveryPair(ts: seq<Tick>)
    requires AllWellFormed(ts)
    requires forall i :: 0 <= i < |ts| ==> ts[i].hands != []
    ensures |PairSegments(ts)| == if ts == [] then 0 else |ts| - 1
    ensures forall i :: 0 <= i < |ts| - 1 ==>
              PairSegments(ts)[i] == Stroke(Fingertip(ts[i].hands), ts[i + 1])
    decreases |ts|
  {
    var n := |ts|;
    if n >= 2 {
      var init := ts[..n - 1];
      WellFormedPrefix(ts, n - 1);
      UnbrokenRunDrawsEveryPair(init);
      assert forall i :: 0 <= i < n - 1 ==> init[i] == ts[i];
    }
  }

  /** With a hand in every event, a run draws one segment per event after the
      first, plus one for the first event when a point was already remembered. */
  lemma UnbrokenRunSegmentCount(s: DrawingState, ts: seq<Tick>)
    requires AllWellFormed(ts)
    requires forall i :: 0 <= i < |ts| ==> ts[i].hands != []
    ensures |Run(s, ts).segments| ==
              |s.segments| + if ts == [] then 0 else if s.previous.Some? then |ts| else |ts| - 1
  {
    RunSegments(s, ts);
    UnbrokenRunDrawsEveryPair(ts);
  }

  /** An event with no hand breaks continuity: whatever follows it is drawn as
      if the run had started afresh with no remembered point. */
  lemma GapResets(s: DrawingState, a: seq<Tick>, gap: Tick, b: seq<Tick>)
    requires AllWellFormed(a) && AllWellFormed(b) && gap.hands == []
    ensures AllWellFormed(a + [gap] + b)
    ensures var mid := Run(s, a);
      Run(s, a + [gap] + b) ==
      Run(DrawingState(None, mid.segments, gap.colour, gap.width), b)
  {
    RunSnoc(s, a, gap);
    RunAppend(s, a + [gap], b);
  }

  /** Only the first hand of each event matters: runs over events that agree
      on their first fingertip, their emptiness and their control values end
      in the same state. */
  lemma {:induction false} ExtraHandsIgnored(s: DrawingState, ts: seq<Tick>, us: seq<Tick>)
    requires AllWellFormed(ts) && AllWellFormed(us) && SameFingertips(ts, us)
    ensures Run(s, ts) == Run(s, us)
    decreases |ts|
  {
    if ts != [] {
      assert Step(s, ts[0]) == Step(s, us[0]);
      WellFormedPrefix(ts, 1);
      WellFormedPrefix(us, 1);
      assert forall i :: 0 <= i < |ts| - 1 ==> ts[1..][i] == ts[i + 1] && us[1..][i] == us[i + 1];
      ExtraHandsIgnored(Step(s, ts[0]), ts[1..], us[1..]);
    }
  }

  /** Clearing twice is clearing once. */
  lemma ClearIdempotent(s: DrawingState)
    ensures Cleared(Cleared(s)) == Cleared(s)
  {
  }

  /** After a clear, a run draws exactly its own adjacent hand pairs. */
  lemma ClearThenRun(s: DrawingState, ts: seq<Tick>)
    requires AllWellFormed(ts)
    ensures Run(Cleared(s), ts).segments == PairSegments(ts)
  {
    RunSegments(Cleared(s), ts);
  }

  /** The first event with a hand after a clear only seeds the point. */
  lemma FirstHandAfterClear(s: DrawingState, t: Tick)
    requires FrameWellFormed(t.hands)
    ensures Step(Cleared(s), t).segments == []
    ensures t.hands != [] ==> Step(Cleared(s), t).previous == Some(Fingertip(t.hands))
  {
  }

  /** The drawing context and the state the handlers share, updated in place. */
  class Sketch {
    var previousPoint: Option<Landmark>
    var segments: seq<Segment>
    var strokeStyle: Colour
    var lineWidth: nat

    function Current(): DrawingState
      reads this
    {
      DrawingState(previousPoint, segments, strokeStyle, lineWidth)
    }

    /** A blank canvas with a fresh context and no remembered point. */
    constructor ()
      ensures Current() == Initial
    {
      previousPoint := None;
      segments := [];
      strokeStyle := DefaultStrokeStyle;
      lineWidth := DefaultLineWidth;
    }

    /** The prediction callback, given the detected hands and the current
        values of the colour picker and the stroke-width control. */
    method ResultHandler(results: seq<Hand>, selectedColour: Colour, selectedStrokeWidth: nat)
      requires FrameWellFormed(results)
      modifies this
      ensures Current() == Step(old(Current()), Tick(results, selectedColour, selectedStrokeWidth))
      ensures strokeStyle == selectedColour && lineWidth == selectedStrokeWidth
      ensures results == [] ==> previousPoint == None && segments == old(segments)
      ensures results != [] ==> previousPoint == Some(Fingertip(results))
      ensures results != [] && old(previousPoint).Some? ==>
                segments == old(segments) +
                              [Stroke(old(previousPoint).value, Tick(results, selectedColour, selectedStrokeWidth))]
      ensures old(previousPoint).None? ==> segments == old(segments)
    {
      lineWidth := selectedStrokeWidth;
      strokeStyle := selectedColour;

      if results == [] {
        previousPoint := None;
        return;
      }

      var indexFingerTip := results[0].landmarks[IndexFingerTip];
      if previousPoint.Some? {
        var from := previousPoint.value;
        segments := segments + [Segment(CanvasPoint(from), CanvasPoint(indexFingerTip),
                                        strokeStyle, lineWidth)];
      }
      previousPoint := Some(indexFingerTip);
    }

    /** Erases the 640 by 480 canvas and forgets the previous point. */
    method ClearCanvas()
      modifies this
      ensures Current() == Cleared(old(Current()))
      ensures segments == [] && previousPoint == None
      ensures strokeStyle == old(strokeStyle) && lineWidth == old(lineWidth)
    {
      segments := [];
      previousPoint := None;
    }
  }
}
