/** The stylus coordinator behind the drawing canvas: it gates drawing on the
    squid's ink, charges ink for every change of the drawing, publishes the
    hover position and the last stroke's bounds to the scene, and keeps one
    expiry timer per stroke index. Gesture recognisers and PencilKit are outside
    the model: their outputs (a gesture phase and location, the strokes of the
    drawing) are parameters, and a timer firing is a call of RemoveStroke. */
module HoverView {
  import opened Wrappers
  import opened Geometry
  import opened GameObjects

  /** Ink one change of the drawing costs, and the least ink that allows drawing. */
  const StrokeInk: real := 0.1

  /** `UIGestureRecognizer.State`. */
  datatype GesturePhase = Possible | Began | Changed | Ended | Cancelled | Failed

  /** A one-shot timer scheduled to remove the stroke at `strokeIndex`;
      `token` tells timers apart. */
  datatype StrokeTimer = StrokeTimer(token: nat, strokeIndex: nat)

  /** The hover position a gesture publishes: its location while it has begun
      or changed, nil in every other state. */
  function HoverAfter(phase: GesturePhase, location: Point): (r: Option<Point>)
    ensures r.Some? <==> phase == Began || phase == Changed
    ensures r.Some? ==> r.value == location
  {
    match phase
    case Began => Some(location)
    case Changed => Some(location)
    case _ => None
  }

  /** `squid.ink -= INK_QUANTITY; if squid.ink < 0.1 { squid.ink = 0.0 }`. */
  function SpendStrokeInk(ink: real): (r: real)
    ensures r == 0.0 || r >= StrokeInk
    ensures r <= ink - StrokeInk || r == 0.0
    ensures ink - StrokeInk >= StrokeInk ==> r == ink - StrokeInk
  {
    if ink - StrokeInk < StrokeInk then 0.0 else ink - StrokeInk
  }

  /** Spending stroke ink keeps the bar inside [0, bound) for any bound above 0. */
  lemma SpendStrokeInkInBand(ink: real, bound: real)
    requires 0.0 <= ink < bound
    ensures 0.0 <= SpendStrokeInk(ink) < bound
  {
  }

  /** `Set(0..<n)`. */
  function ValidIndices(n: nat): (r: set<int>)
    ensures forall k :: k in r <==> 0 <= k < n
  {
    if n == 0 then {} else ValidIndices(n - 1) + {n - 1}
  }

  /** `drawing.strokes.remove(at: i)`. */
  function RemovedAt<T>(s: seq<T>, i: nat): (r: seq<T>)
    requires i < |s|
    ensures |r| == |s| - 1
    ensures forall k :: 0 <= k < i ==> r[k] == s[k]
    ensures forall k :: i <= k < |r| ==> r[k] == s[k + 1]
  {
    s[..i] + s[i + 1..]
  }

  class Coordinator {
    /** The squid the scene shares with this coordinator. */
    const squid: Squid
    /** The scene's `hoverPosition` and `strokeRect`, bound to this coordinator. */
    var hoverPosition: Option<Point>
    var strokeRect: Option<Rect>
    /** The canvas drawing's strokes, each by its `renderBounds`. */
    var strokes: seq<Rect>
    var inkAvailable: bool
    /** `canvasView.drawingGestureRecognizer.isEnabled` */
    var drawingEnabled: bool
    var strokeTimers: map<int, StrokeTimer>
    var nextTimer: nat

    constructor (squid: Squid)
      ensures this.squid == squid
      ensures hoverPosition == None && strokeRect == None && strokes == []
      ensures inkAvailable && drawingEnabled && strokeTimers == map[]
    {
      this.squid := squid;
      hoverPosition := None;
      strokeRect := None;
      strokes := [];
      inkAvailable := true;
      drawingEnabled := true;
      strokeTimers := map[];
      nextTimer := 0;
    }

    /** The body shared by the hover and two-finger-pan handlers. The published
        position is a main-queue block, applied when the handler returns. */
    method GestureUpdate(phase: GesturePhase, location: Point)
      modifies this
      ensures inkAvailable == (old(inkAvailable) || squid.ink >= StrokeInk)
      ensures drawingEnabled == inkAvailable
      ensures hoverPosition == HoverAfter(phase, location)
      ensures strokeRect == old(strokeRect) && strokes == old(strokes)
      ensures strokeTimers == old(strokeTimers) && nextTimer == old(nextTimer)
    {
      if squid.ink >= StrokeInk {
        inkAvailable := true;
      }
      if inkAvailable {
        drawingEnabled := true;
      } else {
        drawingEnabled := false;
      }
      match phase {
        case Began => hoverPosition := Some(location);
        case Changed => hoverPosition := Some(location);
        case Ended => hoverPosition := None;
        case Cancelled => hoverPosition := None;
        case Failed => hoverPosition := None;
        case Possible => hoverPosition := None;
      }
    }

    /** `handleHover(_:)` */
    method HandleHover(phase: GesturePhase, location: Point)
      modifies this
      ensures inkAvailable == (old(inkAvailable) || squid.ink >= StrokeInk)
      ensures drawingEnabled == inkAvailable
      ensures hoverPosition == HoverAfter(phase, location)
      ensures strokeRect == old(strokeRect) && strokes == old(strokes)
      ensures strokeTimers == old(strokeTimers) && nextTimer == old(nextTimer)
    {
      GestureUpdate(phase, location);
    }

    /** `handleTwoFingerPan(_:)` */
    method HandleTwoFingerPan(phase: GesturePhase, location: Point)
      modifies this
      ensures inkAvailable == (old(inkAvailable) || squid.ink >= StrokeInk)
      ensures drawingEnabled == inkAvailable
      ensures hoverPosition == HoverAfter(phase, location)
      ensures strokeRect == old(strokeRect) && strokes == old(strokes)
      ensures strokeTimers == old(strokeTimers) && nextTimer == old(nextTimer)
    {
      GestureUpdate(phase, location);
    }

    /** `canvasViewDrawingDidChange(_:)`, called with the strokes the canvas now
        holds. */
    method CanvasViewDrawingDidChange(newStrokes: seq<Rect>)
      modifies this, squid
      ensures squid.ink == SpendStrokeInk(old(squid.ink))
      ensures squid.ink == 0.0 || squid.ink >= StrokeInk
      ensures inkAvailable == (old(inkAvailable) && old(squid.ink) - StrokeInk >= StrokeInk)
      ensures squid.position == old(squid.position)
      ensures strokes == newStrokes
      ensures strokeRect == if |newStrokes| > 0 then Some(newStrokes[|newStrokes| - 1]) else old(strokeRect)
      ensures strokeTimers.Keys == ValidIndices(|newStrokes|)
      ensures forall k :: k in old(strokeTimers) && 0 <= k < |newStrokes| ==> strokeTimers[k] == old(strokeTimers)[k]
      ensures forall k :: k in strokeTimers && k !in old(strokeTimers) ==> strokeTimers[k].strokeIndex == k
      ensures hoverPosition == old(hoverPosition) && drawingEnabled == old(drawingEnabled)
    {
      var ink, available := squid.ink - StrokeInk, inkAvailable;
      if ink < StrokeInk {
        available := false;
        ink := 0.0;
      }
      var rect, timers, token := ScheduleTimers(newStrokes, strokeRect, strokeTimers, nextTimer);
      timers := DropExpiredTimers(timers, |newStrokes|);
      squid.ink, inkAvailable, strokes, strokeRect, strokeTimers, nextTimer := ink, available, newStrokes, rect, timers, token;
    }

    /** `removeStroke(at:)`, run when the timer of `index` fires. */
    method RemoveStroke(index: nat)
      modifies this
      ensures index >= old(|strokes|) ==> strokes == old(strokes) && strokeTimers == old(strokeTimers)
      ensures index < old(|strokes|) ==>
        strokes == RemovedAt(old(strokes), index) && strokeTimers == old(strokeTimers) - {index}
      ensures hoverPosition == old(hoverPosition) && strokeRect == old(strokeRect)
      ensures inkAvailable == old(inkAvailable) && drawingEnabled == old(drawingEnabled)
      ensures nextTimer == old(nextTimer)
    {
      if index >= |strokes| {
        return;
      }
      var drawing := strokes;
      drawing := drawing[..index] + drawing[index + 1..];
      strokes := drawing;
      strokeTimers := strokeTimers - {index};
    }
  }

  /** The view-side stores of every scene's `frames` handler: the stroke is
      consumed and the squid takes its mirrored position; no waste changes. */
  method ShowFrame(squid: Squid, coordinator: Coordinator, mirrored: Option<Point>, ghost ws: seq<Waste>)
    modifies squid`position, coordinator`strokeRect
    ensures States(ws) == old(States(ws))
    ensures squid.position == mirrored && coordinator.strokeRect == None
  {
    coordinator.strokeRect := None;
    squid.position := mirrored;
  }

  /** The first loop of `canvasViewDrawingDidChange(_:)`: every stroke in turn
      becomes the published stroke rectangle, and every stroke index without a
      timer gets a fresh one. */
  method ScheduleTimers(newStrokes: seq<Rect>, strokeRect: Option<Rect>, timers0: map<int, StrokeTimer>, token0: nat)
    returns (rect: Option<Rect>, timers: map<int, StrokeTimer>, token: nat)
    ensures rect == if |newStrokes| > 0 then Some(newStrokes[|newStrokes| - 1]) else strokeRect
    ensures timers.Keys == timers0.Keys + ValidIndices(|newStrokes|)
    ensures forall k :: k in timers0 ==> timers[k] == timers0[k]
    ensures forall k :: k in timers && k !in timers0 ==> timers[k].strokeIndex == k
  {
    timers, rect, token := timers0, strokeRect, token0;
    var index := 0;
    while index < |newStrokes|
      invariant 0 <= index <= |newStrokes|
      invariant rect == if index > 0 then Some(newStrokes[index - 1]) else strokeRect
      invariant timers.Keys == timers0.Keys + ValidIndices(index)
      invariant forall k :: k in timers0 ==> timers[k] == timers0[k]
      invariant forall k :: k in timers && k !in timers0 ==> timers[k].strokeIndex == k
    {
      rect := Some(newStrokes[index]);
      if index !in timers {
        timers := timers[index := StrokeTimer(token, index)];
        token := token + 1;
      }
      index := index + 1;
    }
  }

  /** The second loop: the timers of indices past the last stroke are
      invalidated and dropped, and every other timer stays. */
  method DropExpiredTimers(timers0: map<int, StrokeTimer>, count: nat) returns (timers: map<int, StrokeTimer>)
    requires ValidIndices(count) <= timers0.Keys
    ensures timers.Keys == ValidIndices(count)
    ensures forall k :: k in timers ==> timers[k] == timers0[k]
  {
    timers := timers0;
    var removed := timers.Keys - ValidIndices(count);
    while removed != {}
      invariant removed <= timers.Keys
      invariant timers.Keys - removed == ValidIndices(count)
      invariant forall k :: k in timers ==> timers[k] == timers0[k]
      decreases removed
    {
      var k :| k in removed;
      timers := timers - {k};
      removed := removed - {k};
    }
  }

  /** What `removeStroke(at:)` does to the timers. Each timer is keyed by the
      index it captured when it was scheduled, and nothing re-keys the timers
      when the later strokes shift down. Removing the last stroke leaves
      exactly the valid indices. Removing an earlier one leaves a timer keyed
      by the old last index, which no stroke has any more. It leaves the
      stroke that moves into the removed slot without a timer. And every later
      timer still names its old index, which now holds the stroke after the
      one it was scheduled for. */
  lemma RemovalShiftsTimers<T>(strokes: seq<T>, timers: map<int, StrokeTimer>, index: nat)
    requires timers.Keys == ValidIndices(|strokes|) && index < |strokes|
    requires forall k :: k in timers ==> timers[k].strokeIndex == k
    ensures var rest, left := RemovedAt(strokes, index), timers - {index};
      && (index == |strokes| - 1 ==> left.Keys == ValidIndices(|rest|))
      && (index < |strokes| - 1 ==>
            && |strokes| - 1 in left && |strokes| - 1 !in ValidIndices(|rest|)
            && index < |rest| && index !in left
            && forall k :: index < k < |rest| ==>
                 k in left && left[k].strokeIndex == k && rest[k] == strokes[k + 1])
  {
  }
}
