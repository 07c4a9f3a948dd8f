/** One game session of `GameSceneView`: the scene's state, its one-second
    handler (waves, dead-squid markers, ink regeneration, the score counter and
    the difficulty ramp), its 16 ms frame handler (cull, move, collide, erase,
    cap the markers, mirror the hover onto the squid) and the ink eject of the
    pencil squeeze and the shake. Timer publishers are abstracted away: each
    handler is a method, and cancelling the timers sets `stopped`, after which
    the handlers do nothing. Blocks the handlers hand to the main queue run, in
    order, when the handler returns. */
module GameScene {
  import opened Wrappers
  import opened Geometry
  import opened GameObjects
  import opened SceneRules
  import opened SceneSteps
  import opened HoverView

  const SpawnRate: nat := 3
  const InkRate: nat := 2
  const InkQuantity: real := 0.2
  const Sprites: seq<string> := ["can", "bottle", "plastic"]

  /** The loop of `removeExcesses()` on a list of markers: with 50 or more,
      drop the oldest until 50 are left. */
  method KeepNewest(markers: seq<DeadSquid>) returns (r: seq<DeadSquid>)
    ensures r == Newest(markers, MaxDeadSquids)
  {
    r := markers;
    if |r| >= MaxDeadSquids {
      while |r| > MaxDeadSquids
        invariant MaxDeadSquids <= |r| <= |markers|
        invariant r == markers[|markers| - |r|..]
      {
        r := r[1..];
      }
    }
  }

  class GameSession {
    const screenWidth: real
    const screenHeight: real
    const squid: Squid
    /** The drawing canvas's coordinator; it shares the squid and holds the
        scene's `hoverPosition` and `strokeRect`. */
    const coordinator: Coordinator
    var wastes: seq<Waste>
    var dead: seq<DeadSquid>
    var seconds: nat
    var spawnQuantity: nat
    var initialVelocity: real
    var deadOctopuses: int
    var gameOver: bool
    var stopped: bool
    var hoverTick: int
    /** Ids not yet given to a waste, and to a marker. */
    var nextId: nat
    var nextMarkerId: nat

    /** What every handler keeps: wastes have distinct ids, all below `nextId`;
        the ink stays in [0, 1.2); the hover tick stays in 0..60. */
    ghost predicate Valid()
      reads this, squid, wastes
    {
      && coordinator.squid == squid
      && UniqueIds(States(wastes))
      && (forall id :: id in Ids(States(wastes)) ==> id < nextId)
      && 0.0 <= squid.ink < 1.0 + InkQuantity
      && 0 <= hoverTick <= 60
    }

    constructor (screenWidth: real, screenHeight: real)
      ensures Valid() && fresh(squid) && fresh(coordinator)
      ensures this.screenWidth == screenWidth && this.screenHeight == screenHeight
      ensures wastes == [] && dead == [] && seconds == 0 && spawnQuantity == 7 && initialVelocity == 100.0
      ensures deadOctopuses == 0 && !gameOver && !stopped && hoverTick == 0
      ensures squid.position == None && squid.ink == 0.0
      ensures coordinator.hoverPosition == None && coordinator.strokeRect == None
    {
      this.screenWidth := screenWidth;
      this.screenHeight := screenHeight;
      var s := new Squid();
      squid := s;
      coordinator := new Coordinator(s);
      wastes := [];
      dead := [];
      seconds := 0;
      spawnQuantity := 7;
      initialVelocity := 100.0;
      deadOctopuses := 0;
      gameOver := false;
      stopped := false;
      hoverTick := 0;
      nextId := 0;
      nextMarkerId := 0;
    }

    /** Under the session invariant the eject gate is exactly a full bar. */
    lemma FullBarEjects()
      requires Valid()
      ensures squid.CanEjectInk() <==> squid.ink >= 1.0
    {
    }

    /** `onAppear`: the squid's starting position. */
    method Appear()
      requires Valid()
      modifies squid
      ensures Valid()
      ensures squid.position == Some(Point(screenWidth / 2.0, screenHeight - 1.5 * SquidHeight))
      ensures squid.ink == old(squid.ink)
    {
      squid.position := Some(Point(screenWidth / 2.0, screenHeight - 1.5 * squid.height));
    }

    /** The `durationTimer` handler, given the draws of this second's wave (one
        per waste) and of its two markers. Once the timers are cancelled it
        does nothing. */
    method SecondTick(wasteDraws: seq<WasteDraw>, deadDraws: seq<DeadSquidDraw>)
      requires Valid()
      requires WaveSecond(seconds + 1, SpawnRate) ==>
        |wasteDraws| == spawnQuantity && forall k :: 0 <= k < |wasteDraws| ==> ValidWasteDraw(wasteDraws[k], screenWidth, screenHeight, |Sprites|)
      requires MarkerSecond(seconds + 1, SpawnRate) ==>
        |deadDraws| == 2 && forall k :: 0 <= k < |deadDraws| ==> ValidDeadSquidDraw(deadDraws[k], screenWidth, screenHeight)
      modifies this, squid
      ensures Valid()
      ensures old(stopped) ==> unchanged(this, squid)
      ensures !old(stopped) ==> ElapsedOneSecond(old(seconds), old(States(wastes)), old(initialVelocity), old(nextId),
                                                 old(dead), old(nextMarkerId), old(squid.ink), old(deadOctopuses),
                                                 old(spawnQuantity), wasteDraws, deadDraws)
      ensures squid.position == old(squid.position)
      ensures gameOver == old(gameOver) && stopped == old(stopped) && hoverTick == old(hoverTick)
    {
      if stopped {
        return;
      }
      ElapseSecond(wasteDraws, deadDraws);
    }

    /** What one second of play does to the session, against the state before it. */
    ghost predicate ElapsedOneSecond(seconds0: nat, states0: seq<WasteState>, velocity0: real, nextId0: nat,
                                     dead0: seq<DeadSquid>, nextMarkerId0: nat, ink0: real,
                                     deadOctopuses0: int, spawnQuantity0: nat,
                                     wasteDraws: seq<WasteDraw>, deadDraws: seq<DeadSquidDraw>)
      requires WaveSecond(seconds0 + 1, SpawnRate) ==> forall k :: 0 <= k < |wasteDraws| ==> ValidWasteDraw(wasteDraws[k], screenWidth, screenHeight, |Sprites|)
      requires MarkerSecond(seconds0 + 1, SpawnRate) ==> forall k :: 0 <= k < |deadDraws| ==> ValidDeadSquidDraw(deadDraws[k], screenWidth, screenHeight)
      reads this, squid, wastes
    {
      && seconds == seconds0 + 1
      && States(wastes) == states0 +
           (if WaveSecond(seconds0 + 1, SpawnRate)
            then SpawnedWastes(screenWidth, screenHeight, Sprites, velocity0, nextId0, wasteDraws) else [])
      && initialVelocity == velocity0 + (if WaveSecond(seconds, SpawnRate) then 5.0 else 0.0)
      && dead == dead0 +
           (if MarkerSecond(seconds0 + 1, SpawnRate)
            then NewMarkers(screenWidth, screenHeight, nextMarkerId0, deadDraws) else [])
      && squid.ink == (if WaveSecond(seconds, InkRate) then RegenInk(ink0, InkQuantity) else ink0)
      && deadOctopuses == deadOctopuses0 + 1
      && spawnQuantity == spawnQuantity0 + (if seconds % 60 == 0 then 1 else 0)
    }

    /** The body of the `durationTimer` handler. */
    method ElapseSecond(wasteDraws: seq<WasteDraw>, deadDraws: seq<DeadSquidDraw>)
      requires Valid()
      requires WaveSecond(seconds + 1, SpawnRate) ==> forall k :: 0 <= k < |wasteDraws| ==> ValidWasteDraw(wasteDraws[k], screenWidth, screenHeight, |Sprites|)
      requires MarkerSecond(seconds + 1, SpawnRate) ==>
        |deadDraws| == 2 && forall k :: 0 <= k < |deadDraws| ==> ValidDeadSquidDraw(deadDraws[k], screenWidth, screenHeight)
      modifies this, squid
      ensures Valid()
      ensures ElapsedOneSecond(old(seconds), old(States(wastes)), old(initialVelocity), old(nextId),
                               old(dead), old(nextMarkerId), old(squid.ink), old(deadOctopuses),
                               old(spawnQuantity), wasteDraws, deadDraws)
      ensures squid.position == old(squid.position)
      ensures gameOver == old(gameOver) && stopped == old(stopped) && hoverTick == old(hoverTick)
    {
      ghost var s0 := States(wastes);
      ghost var wave := if WaveSecond(seconds + 1, SpawnRate)
                        then SpawnedWastes(screenWidth, screenHeight, Sprites, initialVelocity, nextId, wasteDraws)
                        else [];
      seconds := seconds + 1;
      // a wave every SPAWN_RATE seconds, then a faster base velocity
      if seconds % SpawnRate == 0 {
        SpawnWave(wasteDraws);
      }
      ghost var s1 := States(wastes);
      assert s1 == s0 + wave;
      // two markers the second after a wave
      if seconds % SpawnRate - 1 == 0 {
        SpawnMarkers(deadDraws);
      }
      // ink regeneration every INK_RATE seconds
      if seconds % InkRate == 0 {
        RegenBand(squid.ink, InkQuantity);
        RegenerateInk();
      }
      TallySecond();
    }

    /** The wave of `SPAWN_QUANTITY` random wastes with the current base
        velocity, numbered from `nextId`, and the velocity step that follows. */
    method SpawnWave(wasteDraws: seq<WasteDraw>)
      requires Valid()
      requires forall k :: 0 <= k < |wasteDraws| ==> ValidWasteDraw(wasteDraws[k], screenWidth, screenHeight, |Sprites|)
      modifies this
      ensures Valid()
      ensures States(wastes) ==
        old(States(wastes)) + SpawnedWastes(screenWidth, screenHeight, Sprites, old(initialVelocity), old(nextId), wasteDraws)
      ensures initialVelocity == old(initialVelocity) + 5.0 && nextId == old(nextId) + |wasteDraws|
      ensures dead == old(dead) && seconds == old(seconds) && spawnQuantity == old(spawnQuantity)
      ensures deadOctopuses == old(deadOctopuses) && nextMarkerId == old(nextMarkerId)
      ensures gameOver == old(gameOver) && stopped == old(stopped) && hoverTick == old(hoverTick)
    {
      ghost var s0 := States(wastes);
      var spawned := SpawnWastes(screenWidth, screenHeight, Sprites, initialVelocity, nextId, wasteDraws);
      assert States(wastes) == s0;
      AddWave(spawned, wasteDraws);
    }

    /** The stores that end a wave: the new wastes join the list, the ids they
        took are used up, and the base velocity steps up. */
    method AddWave(spawned: seq<Waste>, wasteDraws: seq<WasteDraw>)
      requires Valid()
      requires forall k :: 0 <= k < |wasteDraws| ==> ValidWasteDraw(wasteDraws[k], screenWidth, screenHeight, |Sprites|)
      requires States(spawned) == SpawnedWastes(screenWidth, screenHeight, Sprites, initialVelocity, nextId, wasteDraws)
      modifies this
      ensures Valid()
      ensures States(wastes) == old(States(wastes)) + old(States(spawned))
      ensures initialVelocity == old(initialVelocity) + 5.0 && nextId == old(nextId) + |wasteDraws|
      ensures dead == old(dead) && seconds == old(seconds) && spawnQuantity == old(spawnQuantity)
      ensures deadOctopuses == old(deadOctopuses) && nextMarkerId == old(nextMarkerId)
      ensures gameOver == old(gameOver) && stopped == old(stopped) && hoverTick == old(hoverTick)
    {
      ghost var s0 := States(wastes);
      SpawnKeepsUnique(s0, screenWidth, screenHeight, Sprites, initialVelocity, nextId, wasteDraws);
      StatesAppend(wastes, spawned);
      ghost var grown := States(wastes + spawned);
      wastes, nextId, initialVelocity := wastes + spawned, nextId + |wasteDraws|, initialVelocity + 5.0;
      assert States(wastes) == grown;
    }

    /** The two markers of the second after a wave, numbered from `nextMarkerId`. */
    method SpawnMarkers(deadDraws: seq<DeadSquidDraw>)
      requires Valid()
      requires |deadDraws| == 2
      requires forall k :: 0 <= k < |deadDraws| ==> ValidDeadSquidDraw(deadDraws[k], screenWidth, screenHeight)
      modifies this
      ensures Valid() && States(wastes) == old(States(wastes))
      ensures dead == old(dead) + NewMarkers(screenWidth, screenHeight, old(nextMarkerId), deadDraws)
      ensures nextMarkerId == old(nextMarkerId) + 2
      ensures wastes == old(wastes) && seconds == old(seconds) && spawnQuantity == old(spawnQuantity)
      ensures initialVelocity == old(initialVelocity) && deadOctopuses == old(deadOctopuses)
      ensures gameOver == old(gameOver) && stopped == old(stopped) && hoverTick == old(hoverTick)
      ensures nextId == old(nextId)
    {
      var markers := AppendMarkers(dead, screenWidth, screenHeight, nextMarkerId, deadDraws);
      dead := markers;
      nextMarkerId := nextMarkerId + 2;
    }

    /** One ink regeneration step with INK_QUANTITY; no waste changes. */
    method RegenerateInk()
      modifies squid
      ensures wastes == old(wastes) && States(wastes) == old(States(wastes))
      ensures squid.ink == RegenInk(old(squid.ink), InkQuantity)
      ensures squid.position == old(squid.position)
    {
      RegenBand(squid.ink, InkQuantity);
      RegenerateSquidInk(squid, InkQuantity);
    }

    /** The score count of every second (`seconds % 1 == 0` always holds) and
        one more waste per wave each full minute. */
    method TallySecond()
      requires Valid()
      modifies this
      ensures Valid() && States(wastes) == old(States(wastes))
      ensures deadOctopuses == old(deadOctopuses) + 1
      ensures spawnQuantity == old(spawnQuantity) + (if seconds % 60 == 0 then 1 else 0)
      ensures wastes == old(wastes) && dead == old(dead) && seconds == old(seconds)
      ensures initialVelocity == old(initialVelocity) && nextId == old(nextId) && nextMarkerId == old(nextMarkerId)
      ensures gameOver == old(gameOver) && stopped == old(stopped) && hoverTick == old(hoverTick)
    {
      if seconds % 1 == 0 {
        deadOctopuses := deadOctopuses + 1;
      }
      if seconds % 60 == 0 {
        spawnQuantity := spawnQuantity + 1;
      }
    }

    /** `removeExcesses()`: drop the oldest markers until at most 50 are left. */
    method RemoveExcesses()
      modifies this
      ensures dead == Newest(old(dead), MaxDeadSquids)
      ensures wastes == old(wastes) && seconds == old(seconds) && spawnQuantity == old(spawnQuantity)
      ensures initialVelocity == old(initialVelocity) && deadOctopuses == old(deadOctopuses)
      ensures gameOver == old(gameOver) && stopped == old(stopped) && hoverTick == old(hoverTick)
      ensures nextId == old(nextId) && nextMarkerId == old(nextMarkerId)
    {
      dead := KeepNewest(dead);
    }

    /** The `frames` handler. Once the timers are cancelled it does nothing. */
    method FrameTick()
      requires Valid()
      modifies this, squid`position, coordinator`strokeRect, wastes
      ensures Valid()
      ensures old(stopped) ==> unchanged(this, squid, coordinator) && States(wastes) == old(States(wastes))
      ensures !old(stopped) ==> FrameOutcome(old(States(wastes)), old(squid.position), old(coordinator.strokeRect),
                                             old(dead), old(gameOver), old(hoverTick))
      ensures seconds == old(seconds) && spawnQuantity == old(spawnQuantity)
      ensures initialVelocity == old(initialVelocity) && deadOctopuses == old(deadOctopuses)
    {
      if stopped {
        return;
      }
      ElapseFrame();
    }

    /** What one frame does to the session, against the state before it: the
        wastes are those `FrameWastes` leaves, a collision ends the game and
        clears the markers, otherwise the markers are capped; the stroke is
        consumed, the squid follows the hover horizontally and the hover tick
        advances. */
    ghost predicate FrameOutcome(before: seq<WasteState>, squidAt: Option<Point>, strokeRect0: Option<Rect>,
                                 dead0: seq<DeadSquid>, gameOver0: bool, hoverTick0: int)
      reads this, squid, coordinator, wastes
    {
      var hit := AnyColliding(MoveAll(Cull(before, screenHeight), DeltaTime), squidAt);
      && States(wastes) == FrameWastes(before, screenHeight, squidAt, StrokeOrSentinel(strokeRect0))
      && gameOver == (gameOver0 || hit) && stopped == hit
      && dead == (if hit then [] else Newest(dead0, MaxDeadSquids))
      && coordinator.strokeRect == None
      && squid.position == MirrorHover(squidAt, coordinator.hoverPosition)
      && hoverTick == NextHoverTick(hoverTick0)
    }

    /** The body of the `frames` handler. The main-queue blocks the walk queues
        are drained into locals and take effect when the handler returns. */
    method ElapseFrame()
      requires Valid() && !stopped
      modifies this, squid`position, coordinator`strokeRect, wastes
      ensures Valid()
      ensures FrameOutcome(old(States(wastes)), old(squid.position), old(coordinator.strokeRect),
                           old(dead), old(gameOver), old(hoverTick))
      ensures seconds == old(seconds) && spawnQuantity == old(spawnQuantity)
      ensures initialVelocity == old(initialVelocity) && deadOctopuses == old(deadOctopuses)
    {
      var stroke := StrokeOrSentinel(coordinator.strokeRect);
      var remaining, hit := UpdateMovement(stroke);
      // the rest of the handler: the stroke is consumed, the markers capped
      var markers := KeepNewest(dead);
      // only the horizontal hover coordinate reaches the squid
      var mirrored := MirrorHover(squid.position, coordinator.hoverPosition);
      var tick := NextHoverTick(hoverTick);
      HoverTickCycles(hoverTick);
      ShowFrame(squid, coordinator, mirrored, remaining);
      Conclude(remaining, hit, markers, tick);
    }

    /** The session-side stores that end a frame: the tick advances; a
        collision cancels the timers, and the queued blocks leave `remaining`
        and, after a collision, no markers. */
    method Conclude(remaining: seq<Waste>, hit: bool, markers: seq<DeadSquid>, tick: int)
      requires coordinator.squid == squid && 0.0 <= squid.ink < 1.0 + InkQuantity && 0 <= tick <= 60
      requires UniqueIds(States(remaining)) && forall id :: id in Ids(States(remaining)) ==> id < nextId
      modifies this
      ensures Valid() && States(wastes) == old(States(remaining))
      ensures wastes == remaining && dead == (if hit then [] else markers) && hoverTick == tick
      ensures gameOver == (old(gameOver) || hit) && stopped == (old(stopped) || hit)
      ensures seconds == old(seconds) && spawnQuantity == old(spawnQuantity)
      ensures initialVelocity == old(initialVelocity) && deadOctopuses == old(deadOctopuses)
      ensures nextId == old(nextId) && nextMarkerId == old(nextMarkerId)
    {
      ghost var st := States(remaining);
      wastes, dead, hoverTick, gameOver, stopped := remaining, if hit then [] else markers, tick, gameOver || hit, stopped || hit;
      assert States(wastes) == st;
    }

    /** `updateMovement(_:)`: the off-screen cull, then the `compactMap` that
        moves every waste and queues a main-queue block for each collision and
        each erasure, and the drain of those blocks. Returns the wastes the
        blocks leave and whether one of them was a game-over clear. */
    method UpdateMovement(stroke: Rect) returns (remaining: seq<Waste>, hit: bool)
      requires UniqueIds(States(wastes))
      modifies set w | w in wastes
      ensures forall w :: w in remaining ==> w in old(wastes)
      ensures States(remaining) == FrameWastes(old(States(wastes)), screenHeight, old(squid.position), stroke)
      ensures hit == AnyColliding(MoveAll(Cull(old(States(wastes)), screenHeight), DeltaTime), old(squid.position))
      ensures UniqueIds(States(remaining)) && Ids(States(remaining)) <= Ids(old(States(wastes)))
    {
      var ws := wastes;
      ghost var before, squidAt := States(ws), squid.position;
      var culled := CullOffScreen(ws, screenHeight);
      CullKeepsUnique(before, screenHeight);
      ghost var onScreen := States(culled);
      var queue, collided := MoveAndQueue(culled, squid, stroke);
      ghost var moved := States(culled);
      assert moved == MoveAll(onScreen, DeltaTime);
      var cleared, removedAny;
      remaining, cleared, removedAny := Drain(culled, queue);
      FrameDrainOutcome(before, screenHeight, squidAt, stroke, ApplyAll(queue, moved));
      hit := cleared;
    }

    /** The eject closure of the shake detector and of the pencil squeeze: with
        a full bar, empty it and clear the wastes; the markers stay. */
    method EjectInk()
      requires Valid()
      modifies this, squid
      ensures Valid()
      ensures old(squid.CanEjectInk()) ==> squid.ink == 0.0 && wastes == []
      ensures !old(squid.CanEjectInk()) ==> squid.ink == old(squid.ink) && wastes == old(wastes)
      ensures dead == old(dead) && squid.position == old(squid.position)
      ensures seconds == old(seconds) && gameOver == old(gameOver) && stopped == old(stopped)
      ensures hoverTick == old(hoverTick) && nextId == old(nextId) && nextMarkerId == old(nextMarkerId)
      ensures spawnQuantity == old(spawnQuantity) && initialVelocity == old(initialVelocity)
      ensures deadOctopuses == old(deadOctopuses)
    {
      if squid.CanEjectInk() {
        squid.ink := 0.0;
        wastes := [];
      }
    }

    /** `onPencilSqueeze`: the eject runs when the squeeze ends. */
    method PencilSqueeze(phase: SqueezePhase)
      requires Valid()
      modifies this, squid
      ensures Valid()
      ensures phase == SqueezeEnded && old(squid.CanEjectInk()) ==> squid.ink == 0.0 && wastes == []
      ensures phase != SqueezeEnded || !old(squid.CanEjectInk()) ==>
        squid.ink == old(squid.ink) && wastes == old(wastes)
      ensures dead == old(dead) && squid.position == old(squid.position)
      ensures seconds == old(seconds) && gameOver == old(gameOver) && stopped == old(stopped)
      ensures hoverTick == old(hoverTick) && nextId == old(nextId) && nextMarkerId == old(nextMarkerId)
      ensures spawnQuantity == old(spawnQuantity) && initialVelocity == old(initialVelocity)
      ensures deadOctopuses == old(deadOctopuses)
    {
      if phase == SqueezeEnded {
        EjectInk();
      }
    }

    /** A change of the drawing, seen from the session: the coordinator charges
        the ink, and the session invariant survives it. */
    method DrawingChanged(newStrokes: seq<Rect>)
      requires Valid()
      modifies coordinator, squid
      ensures Valid()
      ensures squid.ink == SpendStrokeInk(old(squid.ink))
      ensures coordinator.strokes == newStrokes
      ensures coordinator.strokeTimers.Keys == ValidIndices(|newStrokes|)
      ensures squid.position == old(squid.position)
      ensures coordinator.strokeRect ==
        if |newStrokes| > 0 then Some(newStrokes[|newStrokes| - 1]) else old(coordinator.strokeRect)
      ensures coordinator.inkAvailable == (old(coordinator.inkAvailable) && old(squid.ink) - StrokeInk >= StrokeInk)
      ensures coordinator.hoverPosition == old(coordinator.hoverPosition)
      ensures coordinator.drawingEnabled == old(coordinator.drawingEnabled)
    {
      SpendStrokeInkInBand(squid.ink, 1.0 + InkQuantity);
      coordinator.CanvasViewDrawingDidChange(newStrokes);
    }
  }
}
