/** The onboarding flow of `TutorialView`: the page counter the Start and Next
    buttons step through, the two lessons with waste (`EnemiesView`, erase by
    drawing; `SqueezeView`, eject the ink) and the movement lesson
    (`MovementView`). The lessons' wastes stand still: they are laid out at
    fixed places, a stroke erases them, and nothing moves them. As in the game
    scene, timer handlers are methods, cancelling the timers sets `stopped`,
    and main-queue blocks run, in order, when their handler returns. */
module Tutorial {
  import opened Wrappers
  import opened Geometry
  import opened GameObjects
  import opened SceneRules
  import opened SceneSteps
  import opened HoverView

  // ---------------------------------------------------------------------------
  // The page counter

  /** The pages of the `switch onboardingStatus`, with its `default` case. */
  datatype Page = DisclaimerPage | EnemiesPage | SqueezePage | MovementPage | ObjectivePage | SomethingWentWrong

  function PageOf(status: int): (p: Page)
    ensures p == SomethingWentWrong <==> !(0 <= status <= 4)
  {
    match status
    case 0 => DisclaimerPage
    case 1 => EnemiesPage
    case 2 => SqueezePage
    case 3 => MovementPage
    case 4 => ObjectivePage
    case _ => SomethingWentWrong
  }

  /** `onboardingStatus += 1; if onboardingStatus > 4 { onboardingStatus = 0 }`:
      from a page of the flow, the next page, and the first after the last. */
  function NextOnboardingStep(status: int): (r: int)
    ensures 0 <= status <= 4 ==> 0 <= r <= 4 && r == (status + 1) % 5
    ensures status >= 4 ==> r == 0
  {
    if status + 1 > 4 then 0 else status + 1
  }

  /** The counter after n button presses. */
  function StepTimes(n: nat, status: int): (r: int)
  {
    if n == 0 then status else NextOnboardingStep(StepTimes(n - 1, status))
  }

  /** From any page of the flow, n presses reach the page n places on, counted
      round the five pages: the counter never shows the `default` page, and
      five presses bring it back. */
  lemma {:induction false} OnboardingCycles(n: nat, status: int)
    requires 0 <= status <= 4
    ensures StepTimes(n, status) == (status + n) % 5
    ensures PageOf(StepTimes(n, status)) != SomethingWentWrong
  {
    if n > 0 {
      OnboardingCycles(n - 1, status);
      var prev := StepTimes(n - 1, status);
      assert prev == (status + n - 1) % 5;
      var q := (status + n - 1) / 5;
      assert status + n - 1 == 5 * q + prev;
      if prev == 4 {
        assert status + n == 5 * (q + 1);
      } else {
        assert status + n == 5 * q + (prev + 1);
      }
    }
  }

  class Onboarding {
    /** `onboardingStatus` */
    var status: int

    constructor ()
      ensures status == 0
    {
      status := 0;
    }

    /** The Start button of the disclaimer and the Next button of each lesson. */
    method Advance()
      modifies this
      ensures status == NextOnboardingStep(old(status))
      ensures 0 <= old(status) <= 4 ==> PageOf(status) != SomethingWentWrong
    {
      status := status + 1;
      if status > 4 {
        status := 0;
      }
    }
  }

  // ---------------------------------------------------------------------------
  // The lessons with waste

  const LessonSpawnRate: nat := 4
  const LessonInkRate: nat := 2
  const LessonInkQuantity: real := 0.1
  const Sprites: seq<string> := ["can", "bottle", "plastic"]

  /** `EnemiesView` (erase by drawing) and `SqueezeView` (eject the ink). */
  datatype Lesson = Enemies | Squeeze

  /** The random draws of a waste placed at a given point: its sprite and its
      rotation. */
  datatype PlaceDraw = PlaceDraw(nameIndex: nat, rotation: real)

  /** The ranges `Waste.init(_:from:)` draws from. */
  predicate ValidPlaceDraw(d: PlaceDraw, nameCount: nat)
  {
    d.nameIndex < nameCount && 0.0 <= d.rotation < 360.0
  }

  /** Where a lesson puts its wastes: one in the middle of the screen's top
      fifth, or three across it at a third, a half and two thirds of the width. */
  function LayoutPoints(lesson: Lesson, screenWidth: real, screenHeight: real): (r: seq<Point>)
  {
    match lesson
    case Enemies => [Point(screenWidth / 2.0, screenHeight / 5.0)]
    case Squeeze => [Point(screenWidth / 3.0, screenHeight / 5.0), Point(screenWidth / 2.0, screenHeight / 5.0),
                     Point(screenWidth * 2.0 / 3.0, screenHeight / 5.0)]
  }

  /** A waste placed by `Waste.init(_:from:)`. */
  function PlacedWaste(names: seq<string>, position: Point, id: nat, d: PlaceDraw): (r: WasteState)
    requires d.nameIndex < |names|
  {
    WasteState(id, names[d.nameIndex], position, 0.0, d.rotation)
  }

  /** The wastes a lesson lays out, as values, numbered from `firstId`. */
  function Layout(lesson: Lesson, screenWidth: real, screenHeight: real, firstId: nat, draws: seq<PlaceDraw>)
    : (r: seq<WasteState>)
    requires |draws| == |LayoutPoints(lesson, screenWidth, screenHeight)|
    requires forall k :: 0 <= k < |draws| ==> ValidPlaceDraw(draws[k], |Sprites|)
  {
    var points := LayoutPoints(lesson, screenWidth, screenHeight);
    seq(|points|, k requires 0 <= k < |points| && k < |draws| && ValidPlaceDraw(draws[k], |Sprites|) =>
                    PlacedWaste(Sprites, points[k], firstId + k, draws[k]))
  }

  /** A lesson's layout: one waste for the eraser lesson and three for the
      eject lesson, each at its point, standing still, with a sprite of the
      set, a rotation in [0, 360), and the next fresh ids. */
  lemma LayoutFacts(lesson: Lesson, screenWidth: real, screenHeight: real, firstId: nat, draws: seq<PlaceDraw>)
    requires |draws| == |LayoutPoints(lesson, screenWidth, screenHeight)|
    requires forall k :: 0 <= k < |draws| ==> ValidPlaceDraw(draws[k], |Sprites|)
    ensures var s := Layout(lesson, screenWidth, screenHeight, firstId, draws);
      && |s| == (if lesson == Enemies then 1 else 3)
      && UniqueIds(s)
      && (forall id :: id in Ids(s) ==> firstId <= id < firstId + |s|)
      && (forall k :: 0 <= k < |s| ==>
            && s[k].position == LayoutPoints(lesson, screenWidth, screenHeight)[k]
            && s[k].position.y == screenHeight / 5.0
            && s[k].velocity == 0.0 && s[k].name in Sprites && 0.0 <= s[k].rotation < 360.0)
  {
    var s := Layout(lesson, screenWidth, screenHeight, firstId, draws);
    assert forall k :: 0 <= k < |s| ==> s[k].id == firstId + k;
    forall id | id in Ids(s) ensures firstId <= id < firstId + |s| {
      var w :| w in s && w.id == id;
      var k :| 0 <= k < |s| && s[k] == w;
    }
  }

  /** The numbering a layout leaves: distinct ids, all below the first id
      after it. */
  lemma LayoutNumbered(lesson: Lesson, screenWidth: real, screenHeight: real, firstId: nat, draws: seq<PlaceDraw>,
                       s: seq<WasteState>)
    requires |draws| == |LayoutPoints(lesson, screenWidth, screenHeight)|
    requires forall k :: 0 <= k < |draws| ==> ValidPlaceDraw(draws[k], |Sprites|)
    requires s == Layout(lesson, screenWidth, screenHeight, firstId, draws)
    ensures UniqueIds(s) && forall id :: id in Ids(s) ==> id < firstId + |draws|
  {
    LayoutFacts(lesson, screenWidth, screenHeight, firstId, draws);
  }

  /** On a screen at least 3 points wide, a frame without a stroke erases none
      of a lesson's wastes. */
  lemma SentinelKeepsLayout(lesson: Lesson, screenWidth: real, screenHeight: real, firstId: nat, draws: seq<PlaceDraw>)
    requires screenWidth >= 3.0
    requires |draws| == |LayoutPoints(lesson, screenWidth, screenHeight)|
    requires forall k :: 0 <= k < |draws| ==> ValidPlaceDraw(draws[k], |Sprites|)
    ensures var s := Layout(lesson, screenWidth, screenHeight, firstId, draws);
      Erase(s, StrokeOrSentinel(None)) == s
  {
    var s := Layout(lesson, screenWidth, screenHeight, firstId, draws);
    forall w | w in s ensures w.position.x >= 1.0 {
      var k :| 0 <= k < |s| && s[k] == w;
    }
    NoStrokeErasesNothing(s);
  }

  /** The literal array of new wastes a lesson's layout is built from. */
  method PlaceWastes(lesson: Lesson, screenWidth: real, screenHeight: real, id: nat, draws: seq<PlaceDraw>)
    returns (placed: seq<Waste>)
    requires |draws| == |LayoutPoints(lesson, screenWidth, screenHeight)|
    requires forall k :: 0 <= k < |draws| ==> ValidPlaceDraw(draws[k], |Sprites|)
    ensures forall w :: w in placed ==> fresh(w)
    ensures States(placed) == Layout(lesson, screenWidth, screenHeight, id, draws)
  {
    ghost var layout := Layout(lesson, screenWidth, screenHeight, id, draws);
    if lesson == Enemies {
      var a := new Waste.Place(Point(screenWidth / 2.0, screenHeight / 5.0), Sprites, id,
                               draws[0].nameIndex, draws[0].rotation);
      assert a.State() == layout[0];
      placed := [a];
    } else {
      var a := new Waste.Place(Point(screenWidth / 3.0, screenHeight / 5.0), Sprites, id,
                               draws[0].nameIndex, draws[0].rotation);
      var b := new Waste.Place(Point(screenWidth / 2.0, screenHeight / 5.0), Sprites, id + 1,
                               draws[1].nameIndex, draws[1].rotation);
      var c := new Waste.Place(Point(screenWidth * 2.0 / 3.0, screenHeight / 5.0), Sprites, id + 2,
                               draws[2].nameIndex, draws[2].rotation);
      assert a.State() == layout[0] && b.State() == layout[1] && c.State() == layout[2];
      placed := [a, b, c];
    }
    StatesOfEach(placed, layout);
  }

  class WasteLesson {
    const lesson: Lesson
    const screenWidth: real
    const screenHeight: real
    const squid: Squid
    /** The drawing canvas's coordinator; it shares the squid and holds the
        lesson's `hoverPosition` and `strokeRect`. */
    const coordinator: Coordinator
    var wastes: seq<Waste>
    var seconds: nat
    /** Shows the Next button. */
    var canMove: bool
    var hoverTick: int
    var stopped: bool
    /** Ids not yet given to a waste. */
    var nextId: nat

    /** What every handler keeps: wastes have distinct ids, all below `nextId`;
        the ink stays in [0, 1.1); the hover tick stays in 0..60. */
    ghost predicate Valid()
      reads this, squid, wastes
    {
      && coordinator.squid == squid
      && UniqueIds(States(wastes))
      && (forall id :: id in Ids(States(wastes)) ==> id < nextId)
      && 0.0 <= squid.ink < 1.0 + LessonInkQuantity
      && 0 <= hoverTick <= 60
    }

    constructor (lesson: Lesson, screenWidth: real, screenHeight: real)
      ensures Valid() && fresh(squid) && fresh(coordinator)
      ensures this.lesson == lesson && this.screenWidth == screenWidth && this.screenHeight == screenHeight
      ensures wastes == [] && seconds == 0 && !canMove && hoverTick == 0 && !stopped
      ensures squid.position == None && squid.ink == 0.0
      ensures coordinator.hoverPosition == None && coordinator.strokeRect == None
    {
      this.lesson := lesson;
      this.screenWidth := screenWidth;
      this.screenHeight := screenHeight;
      var s := new Squid();
      squid := s;
      coordinator := new Coordinator(s);
      wastes := [];
      seconds := 0;
      canMove := false;
      hoverTick := 0;
      stopped := false;
      nextId := 0;
    }

    /** The draws one layout of this lesson takes. */
    predicate ValidDraws(draws: seq<PlaceDraw>)
    {
      && |draws| == |LayoutPoints(lesson, screenWidth, screenHeight)|
      && forall k :: 0 <= k < |draws| ==> ValidPlaceDraw(draws[k], |Sprites|)
    }

    /** `wastes = [Waste(..., from: sprites), ...]`: the lesson's layout, as new
        objects, replaces the list. */
    method PlaceLayout(draws: seq<PlaceDraw>)
      requires Valid() && ValidDraws(draws)
      modifies this
      ensures Valid()
      ensures States(wastes) == Layout(lesson, screenWidth, screenHeight, old(nextId), draws)
      ensures nextId == old(nextId) + |draws|
      ensures seconds == old(seconds) && canMove == old(canMove)
      ensures hoverTick == old(hoverTick) && stopped == old(stopped)
    {
      var placed := PlaceWastes(lesson, screenWidth, screenHeight, nextId, draws);
      ghost var st := States(placed);
      LayoutNumbered(lesson, screenWidth, screenHeight, nextId, draws, st);
      wastes, nextId := placed, nextId + |draws|;
      assert States(wastes) == st;
    }

    /** `onAppear`: the squid's starting position, a bar at 0.9 in the eject
        lesson, and the lesson's layout. */
    method Appear(draws: seq<PlaceDraw>)
      requires Valid() && ValidDraws(draws)
      modifies this, squid
      ensures Valid()
      ensures squid.position == Some(Point(screenWidth / 2.0, screenHeight - 1.5 * SquidHeight))
      ensures squid.ink == if lesson == Squeeze then 0.9 else old(squid.ink)
      ensures States(wastes) == Layout(lesson, screenWidth, screenHeight, old(nextId), draws)
      ensures seconds == old(seconds) && canMove == old(canMove)
      ensures hoverTick == old(hoverTick) && stopped == old(stopped)
    {
      squid.position := Some(Point(screenWidth / 2.0, screenHeight - 1.5 * squid.height));
      if lesson == Squeeze {
        squid.ink := 0.9;
      }
      PlaceLayout(draws);
    }

    /** The `durationTimer` handler, given the draws of a layout: every fourth
        second the layout is laid out afresh, every second second the ink
        regenerates by 0.1. Once the timers are cancelled it does nothing. */
    method SecondTick(draws: seq<PlaceDraw>)
      requires Valid() && ValidDraws(draws)
      modifies this, squid`ink
      ensures Valid()
      ensures old(stopped) ==> unchanged(this, squid)
      ensures !old(stopped) ==> seconds == old(seconds) + 1
      ensures !old(stopped) ==> States(wastes) ==
                                (if WaveSecond(seconds, LessonSpawnRate)
                                 then Layout(lesson, screenWidth, screenHeight, old(nextId), draws)
                                 else old(States(wastes)))
      ensures !old(stopped) ==> squid.ink ==
                                (if WaveSecond(seconds, LessonInkRate)
                                 then RegenInk(old(squid.ink), LessonInkQuantity)
                                 else old(squid.ink))
      ensures canMove == old(canMove) && hoverTick == old(hoverTick) && stopped == old(stopped)
    {
      if stopped {
        return;
      }
      seconds := seconds + 1;
      if seconds % LessonSpawnRate == 0 {
        PlaceLayout(draws);
      }
      if seconds % LessonInkRate == 0 {
        RegenBand(squid.ink, LessonInkQuantity);
        ghost var st := States(wastes);
        RegenerateSquidInk(squid, LessonInkQuantity);
        assert States(wastes) == st;
      }
    }

    /** `updateWaste()`: the erase-only `compactMap` and the drain of the
        removal blocks it queues. Returns the wastes the blocks leave and
        whether any block was queued. Nothing moves. */
    method UpdateWaste(stroke: Rect) returns (remaining: seq<Waste>, erased: bool)
      requires UniqueIds(States(wastes))
      ensures forall w :: w in remaining ==> w in wastes
      ensures States(remaining) == Erase(States(wastes), stroke)
      ensures erased <==> AnyErasing(States(wastes), stroke)
    {
      var ws := wastes;
      var queue := QueueErasures(ws, stroke);
      var cleared;
      remaining, cleared, erased := Drain(ws, queue);
      EraseQueueOutcome(States(ws), stroke);
      EraseEffectsQueued(States(ws), stroke);
      if queue != [] {
        assert queue[0].RemoveWaste?;
      }
    }

    /** The `frames` handler: the wastes the stroke (or the sentinel) covers go,
        and in the eraser lesson that reveals the Next button; the stroke is
        consumed, the squid follows the hover horizontally and the hover tick
        advances. Once the timers are cancelled it does nothing. */
    method FrameTick()
      requires Valid()
      modifies this, squid`position, coordinator`strokeRect
      ensures Valid()
      ensures old(stopped) ==> unchanged(this, squid, coordinator)
      ensures !old(stopped) ==>
        States(wastes) == Erase(old(States(wastes)), StrokeOrSentinel(old(coordinator.strokeRect)))
      ensures !old(stopped) ==> canMove == (old(canMove) || (lesson == Enemies &&
                                  AnyErasing(old(States(wastes)), StrokeOrSentinel(old(coordinator.strokeRect)))))
      ensures !old(stopped) ==> coordinator.strokeRect == None
      ensures !old(stopped) ==> squid.position == MirrorHover(old(squid.position), coordinator.hoverPosition)
      ensures !old(stopped) ==> hoverTick == NextHoverTick(old(hoverTick))
      ensures seconds == old(seconds) && stopped == old(stopped) && nextId == old(nextId)
    {
      if stopped {
        return;
      }
      var stroke := StrokeOrSentinel(coordinator.strokeRect);
      var remaining, erased := UpdateWaste(stroke);
      EraseKeepsIds(States(wastes), stroke, nextId);
      // only the horizontal hover coordinate reaches the squid
      var mirrored := MirrorHover(squid.position, coordinator.hoverPosition);
      HoverTickCycles(hoverTick);
      ShowFrame(squid, coordinator, mirrored, remaining);
      Settle(remaining, canMove || (lesson == Enemies && erased), NextHoverTick(hoverTick));
    }

    /** The lesson-side stores that end a frame: the list the removal blocks
        leave, the Next button, and the hover tick. */
    method Settle(remaining: seq<Waste>, move: bool, tick: int)
      requires coordinator.squid == squid && 0.0 <= squid.ink < 1.0 + LessonInkQuantity && 0 <= tick <= 60
      requires UniqueIds(States(remaining)) && forall id :: id in Ids(States(remaining)) ==> id < nextId
      modifies this
      ensures Valid() && States(wastes) == old(States(remaining))
      ensures wastes == remaining && canMove == move && hoverTick == tick
      ensures seconds == old(seconds) && stopped == old(stopped) && nextId == old(nextId)
    {
      ghost var st := States(remaining);
      wastes, canMove, hoverTick := remaining, move, tick;
      assert States(wastes) == st;
    }

    /** The eject closure of the eject lesson's pencil squeeze and finger
        gesture: with a full bar, clear the wastes, leave half a bar and
        reveal the Next button. The eraser lesson's closure is empty. */
    method EjectInk()
      requires Valid()
      modifies this, squid`ink
      ensures Valid()
      ensures lesson == Squeeze && old(squid.CanEjectInk()) ==> squid.ink == 0.5 && wastes == [] && canMove
      ensures !(lesson == Squeeze && old(squid.CanEjectInk())) ==>
        squid.ink == old(squid.ink) && wastes == old(wastes) && canMove == old(canMove)
      ensures seconds == old(seconds) && hoverTick == old(hoverTick)
      ensures stopped == old(stopped) && nextId == old(nextId)
    {
      if lesson == Squeeze && squid.CanEjectInk() {
        canMove, wastes := true, [];
        squid.ink := 0.5;
      }
    }

    /** `onPencilSqueeze` of the eject lesson: the eject runs when the squeeze ends. */
    method PencilSqueeze(phase: SqueezePhase)
      requires Valid()
      modifies this, squid`ink
      ensures Valid()
      ensures phase == SqueezeEnded && lesson == Squeeze && old(squid.CanEjectInk()) ==>
        squid.ink == 0.5 && wastes == [] && canMove
      ensures !(phase == SqueezeEnded && lesson == Squeeze && old(squid.CanEjectInk())) ==>
        squid.ink == old(squid.ink) && wastes == old(wastes) && canMove == old(canMove)
      ensures seconds == old(seconds) && hoverTick == old(hoverTick)
      ensures stopped == old(stopped) && nextId == old(nextId)
    {
      if phase == SqueezeEnded {
        EjectInk();
      }
    }

    /** A change of the drawing: the coordinator charges the ink, and the
        lesson's invariant survives it. */
    method DrawingChanged(newStrokes: seq<Rect>)
      requires Valid()
      modifies coordinator, squid
      ensures Valid()
      ensures squid.ink == SpendStrokeInk(old(squid.ink))
      ensures coordinator.strokes == newStrokes
      ensures coordinator.strokeTimers.Keys == ValidIndices(|newStrokes|)
      ensures squid.position == old(squid.position)
      ensures coordinator.strokeRect ==
        if |newStrokes| > 0 then Some(newStrokes[|newStrokes| - 1]) else old(coordinator.strokeRect)
      ensures coordinator.inkAvailable == (old(coordinator.inkAvailable) && old(squid.ink) - StrokeInk >= StrokeInk)
      ensures coordinator.hoverPosition == old(coordinator.hoverPosition)
      ensures coordinator.drawingEnabled == old(coordinator.drawingEnabled)
    {
      SpendStrokeInkInBand(squid.ink, 1.0 + LessonInkQuantity);
      coordinator.CanvasViewDrawingDidChange(newStrokes);
    }

    /** `onDisappear`: both timers are cancelled. */
    method Disappear()
      requires Valid()
      modifies this
      ensures Valid() && stopped
      ensures wastes == old(wastes) && seconds == old(seconds) && canMove == old(canMove)
      ensures hoverTick == old(hoverTick) && nextId == old(nextId)
    {
      stopped := true;
    }
  }

  // ---------------------------------------------------------------------------
  // The movement lesson

  class MovementLesson {
    const screenWidth: real
    const screenHeight: real
    const squid: Squid
    const coordinator: Coordinator
    /** Shows the Next button. */
    var canMove: bool
    var hoverTick: int
    var stopped: bool

    ghost predicate Valid()
      reads this
    {
      coordinator.squid == squid && 0 <= hoverTick <= 60
    }

    constructor (screenWidth: real, screenHeight: real)
      ensures Valid() && fresh(squid) && fresh(coordinator)
      ensures this.screenWidth == screenWidth && this.screenHeight == screenHeight
      ensures !canMove && hoverTick == 0 && !stopped
      ensures squid.position == None && coordinator.hoverPosition == None
    {
      this.screenWidth := screenWidth;
      this.screenHeight := screenHeight;
      var s := new Squid();
      squid := s;
      coordinator := new Coordinator(s);
      canMove := false;
      hoverTick := 0;
      stopped := false;
    }

    /** `onAppear`: the starting position, set in a main-queue block. */
    method Appear()
      modifies squid`position
      ensures squid.position == Some(Point(screenWidth / 2.0, screenHeight - 1.5 * SquidHeight))
    {
      squid.position := Some(Point(screenWidth / 2.0, screenHeight - 1.5 * squid.height));
    }

    /** The `frames` handler: the stroke is consumed, the squid follows the
        hover horizontally and the hover tick advances. */
    method FrameTick()
      requires Valid()
      modifies this, squid`position, coordinator`strokeRect
      ensures Valid()
      ensures old(stopped) ==> unchanged(this, squid, coordinator)
      ensures !old(stopped) ==> coordinator.strokeRect == None
      ensures !old(stopped) ==> squid.position == MirrorHover(old(squid.position), coordinator.hoverPosition)
      ensures !old(stopped) ==> hoverTick == NextHoverTick(old(hoverTick))
      ensures canMove == old(canMove) && stopped == old(stopped)
    {
      if stopped {
        return;
      }
      ShowFrame(squid, coordinator, MirrorHover(squid.position, coordinator.hoverPosition), []);
      HoverTickCycles(hoverTick);
      hoverTick := NextHoverTick(hoverTick);
    }

    /** A hover (`pan` false) or two-finger-pan (`pan` true) event, and the
        `onChange(of: hoverPosition)` that follows it: the Next button shows
        once the published position has changed. */
    method Gesture(pan: bool, phase: GesturePhase, location: Point)
      requires Valid()
      modifies this, coordinator
      ensures Valid()
      ensures coordinator.hoverPosition == HoverAfter(phase, location)
      ensures canMove == (old(canMove) || HoverAfter(phase, location) != old(coordinator.hoverPosition))
      ensures hoverTick == old(hoverTick) && stopped == old(stopped)
      ensures coordinator.inkAvailable == (old(coordinator.inkAvailable) || squid.ink >= StrokeInk)
      ensures coordinator.drawingEnabled == coordinator.inkAvailable
      ensures coordinator.strokeRect == old(coordinator.strokeRect) && coordinator.strokes == old(coordinator.strokes)
      ensures coordinator.strokeTimers == old(coordinator.strokeTimers)
      ensures squid.position == old(squid.position) && squid.ink == old(squid.ink)
    {
      var before := coordinator.hoverPosition;
      if pan {
        coordinator.HandleTwoFingerPan(phase, location);
      } else {
        coordinator.HandleHover(phase, location);
      }
      if coordinator.hoverPosition != before {
        canMove := true;
      }
    }

    /** `onDisappear`: the frame timer is cancelled. */
    method Disappear()
      requires Valid()
      modifies this
      ensures Valid() && stopped
      ensures canMove == old(canMove) && hoverTick == old(hoverTick)
    {
      stopped := true;
    }
  }
}
