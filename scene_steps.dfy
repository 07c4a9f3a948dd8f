/** The walks a scene's handlers make over its list of waste objects: the
    off-screen cull of `updateMovement`, the `compactMap` that moves the wastes
    and queues main-queue blocks, the tutorial's erase-only `compactMap`, the
    drain of the queued blocks at the end of the tick, and the spawn loop of a
    wave. Each is proved against the value-level rule it implements. */
module SceneSteps {
  import opened Wrappers
  import opened Geometry
  import opened GameObjects
  import opened SceneRules

  lemma StatesSingleton(w: Waste)
    ensures States([w]) == [w.State()]
  {
    assert [w][..0] == [];
  }

  /** The cull loop's step, stated on the snapshot of states: `current` is the
      list before the step, with the first i states culled. */
  lemma CullLoopStep(states: seq<WasteState>, i: nat, current: seq<WasteState>, screenHeight: real)
    requires UniqueIds(states) && i < |states|
    requires current == Cull(states[..i], screenHeight) + states[i..]
    ensures OnScreen(states[i], screenHeight) ==>
      current == Cull(states[..i + 1], screenHeight) + states[i + 1..]
    ensures !OnScreen(states[i], screenHeight) ==>
      WithoutIds(current, {states[i].id}) == Cull(states[..i + 1], screenHeight) + states[i + 1..]
  {
    var p, x, t := states[..i], states[i], states[i + 1..];
    assert states == p + [x] + t;
    assert states[..i + 1] == p + [x];
    assert states[i..] == [x] + t;
    var c := Cull(p, screenHeight);
    assert c + ([x] + t) == c + [x] + t;
    CullStep(p, x, t, screenHeight);
  }

  /** `for waste in wastes { if waste.position.y > screenHeight + waste.width
      { wastes.removeAll(where: { $0.id == waste.id }) } }`: the loop walks a
      snapshot of the list while it removes from the list itself. */
  method CullOffScreen(ws: seq<Waste>, screenHeight: real) returns (r: seq<Waste>)
    requires UniqueIds(States(ws))
    ensures States(r) == Cull(States(ws), screenHeight)
    ensures forall w :: w in r ==> w in ws
  {
    ghost var states := States(ws);
    assert |states| == |ws| by { StatesIndex(ws); }
    r := ws;
    var i := 0;
    while i < |ws|
      invariant 0 <= i <= |ws|
      invariant States(r) == Cull(states[..i], screenHeight) + states[i..]
      invariant forall w :: w in r ==> w in ws
    {
      StatesAt(ws, i);
      r := CullVisit(r, ws[i], states, i, screenHeight);
      i := i + 1;
    }
    assert states[..i] == states;
    assert states[i..] == [];
  }

  /** One pass of the cull loop: the visited waste leaves the list, by id, when
      it has fallen past the bottom edge by more than its width. */
  method CullVisit(r: seq<Waste>, waste: Waste, ghost states: seq<WasteState>, ghost i: nat, screenHeight: real)
    returns (r': seq<Waste>)
    requires UniqueIds(states) && i < |states| && states[i] == waste.State()
    requires States(r) == Cull(states[..i], screenHeight) + states[i..]
    ensures States(r') == Cull(states[..i + 1], screenHeight) + states[i + 1..]
    ensures forall w :: w in r' ==> w in r
  {
    CullLoopStep(states, i, States(r), screenHeight);
    if waste.position.y > screenHeight + waste.width {
      r' := RemoveAllWithId(r, waste.id);
    } else {
      r' := r;
    }
  }

  /** The `compactMap` of `updateMovement`: every waste moves once; a waste that
      then hits the squid queues the game-over clear, and one the stroke covers
      queues its own removal. */
  method MoveAndQueue(ws: seq<Waste>, squid: Squid, stroke: Rect) returns (queue: seq<Deferred>, collided: bool)
    requires UniqueIds(States(ws))
    modifies ws
    ensures States(ws) == MoveAll(old(States(ws)), DeltaTime)
    ensures queue == FrameEffects(States(ws), squid.position, stroke)
    ensures collided == AnyColliding(States(ws), squid.position)
  {
    ghost var before := States(ws);
    ghost var moved := MoveAll(before, DeltaTime);
    StatesIndex(ws);
    DistinctWastes(ws);
    queue := [];
    collided := false;
    var i := 0;
    while i < |ws|
      invariant 0 <= i <= |ws|
      invariant forall k :: 0 <= k < i ==> ws[k].State() == moved[k]
      invariant forall k :: i <= k < |ws| ==> ws[k].State() == before[k]
      invariant queue == FrameEffects(moved[..i], squid.position, stroke)
      invariant collided == AnyColliding(moved[..i], squid.position)
    {
      var effects, hit := MoveAndTest(ws[i], squid, stroke);
      assert ws[i].State() == moved[i];
      QueueStep(moved, i, squid.position, stroke);
      queue, collided := queue + effects, collided || hit;
      i := i + 1;
    }
    StatesOfEach(ws, moved);
    assert moved[..i] == moved;
  }

  /** The blocks and the collision of the first i + 1 moved wastes extend those
      of the first i by the (i+1)-th waste's own. */
  lemma QueueStep(moved: seq<WasteState>, i: nat, squidPosition: Option<Point>, stroke: Rect)
    requires i < |moved|
    ensures FrameEffects(moved[..i + 1], squidPosition, stroke) ==
      FrameEffects(moved[..i], squidPosition, stroke) + EffectsOf(moved[i], squidPosition, stroke)
    ensures AnyColliding(moved[..i + 1], squidPosition) ==
      (AnyColliding(moved[..i], squidPosition) || Colliding(moved[i], squidPosition))
  {
    assert moved[..i + 1] == moved[..i] + [moved[i]];
    AnyCollidingSnoc(moved[..i], moved[i], squidPosition);
  }

  /** One pass of that `compactMap`: the waste moves, then queues the clear if
      it hits the squid and its removal if the stroke covers it. */
  method MoveAndTest(w: Waste, squid: Squid, stroke: Rect) returns (effects: seq<Deferred>, hit: bool)
    modifies w
    ensures w.State() == Moved(old(w.State()), DeltaTime)
    ensures effects == EffectsOf(w.State(), squid.position, stroke)
    ensures hit == Colliding(w.State(), squid.position)
  {
    w.Move(DeltaTime);
    effects, hit := [], false;
    if w.IsColliding(squid) {
      hit := true;
      effects := [ClearScene];
    }
    if w.IsErasing(stroke) {
      effects := effects + [RemoveWaste(w.id)];
    }
  }

  /** The `compactMap` of the tutorial's `updateWaste`: nothing moves, and every
      waste the stroke covers queues its own removal. */
  method QueueErasures(ws: seq<Waste>, stroke: Rect) returns (queue: seq<Deferred>)
    ensures queue == EraseEffects(States(ws), stroke)
  {
    StatesIndex(ws);
    queue := [];
    var i := 0;
    while i < |ws|
      invariant 0 <= i <= |ws|
      invariant queue == EraseEffects(States(ws)[..i], stroke)
    {
      var w := ws[i];
      assert States(ws)[..i + 1] == States(ws)[..i] + [w.State()];
      if w.IsErasing(stroke) {
        queue := queue + [RemoveWaste(w.id)];
      }
      i := i + 1;
    }
    assert States(ws)[..i] == States(ws);
  }

  /** The queued main-queue blocks, run first to last once the handler has
      returned. `cleared` reports that a game-over clear ran, `removed` that a
      removal ran. */
  method Drain(ws: seq<Waste>, queue: seq<Deferred>) returns (r: seq<Waste>, cleared: bool, removed: bool)
    ensures States(r) == ApplyAll(queue, States(ws))
    ensures cleared <==> ClearScene in queue
    ensures removed <==> exists k :: 0 <= k < |queue| && queue[k].RemoveWaste?
    ensures forall w :: w in r ==> w in ws
  {
    r := ws;
    cleared := false;
    removed := false;
    var i := 0;
    while i < |queue|
      invariant 0 <= i <= |queue|
      invariant States(r) == ApplyAll(queue[..i], States(ws))
      invariant cleared <==> ClearScene in queue[..i]
      invariant removed <==> exists k :: 0 <= k < i && queue[k].RemoveWaste?
      invariant forall w :: w in r ==> w in ws
    {
      DrainStep(queue, i, States(ws));
      match queue[i] {
        case ClearScene =>
          r := [];
          cleared := true;
        case RemoveWaste(id) =>
          r := RemoveAllWithId(r, id);
          removed := true;
      }
      i := i + 1;
    }
    assert queue[..i] == queue;
  }

  /** Running one more queued block. */
  lemma DrainStep(queue: seq<Deferred>, i: nat, s: seq<WasteState>)
    requires i < |queue|
    ensures ApplyAll(queue[..i + 1], s) == ApplyOne(queue[i], ApplyAll(queue[..i], s))
    ensures ClearScene in queue[..i + 1] <==> ClearScene in queue[..i] || queue[i] == ClearScene
  {
    assert queue[..i + 1] == queue[..i] + [queue[i]];
    ApplyAllSnoc(queue[..i], queue[i], s);
  }

  /** `for _ in 0..<SPAWN_QUANTITY { wastes.append(Waste(...)) }`: the wastes of
      one wave, as new objects. */
  method SpawnWastes(screenWidth: real, screenHeight: real, names: seq<string>, velocity: real,
                     firstId: nat, draws: seq<WasteDraw>) returns (ws: seq<Waste>)
    requires forall k :: 0 <= k < |draws| ==> ValidWasteDraw(draws[k], screenWidth, screenHeight, |names|)
    ensures forall w :: w in ws ==> fresh(w)
    ensures States(ws) == SpawnedWastes(screenWidth, screenHeight, names, velocity, firstId, draws)
  {
    ws := [];
    var k := 0;
    while k < |draws|
      invariant 0 <= k <= |draws|
      invariant forall w :: w in ws ==> fresh(w)
      invariant States(ws) == SpawnedWastes(screenWidth, screenHeight, names, velocity, firstId, draws[..k])
    {
      var w := new Waste.Spawn(screenWidth, screenHeight, names, velocity, firstId + k, draws[k]);
      assert (ws + [w])[..|ws|] == ws;
      assert draws[..k + 1][..k] == draws[..k];
      ws := ws + [w];
      k := k + 1;
    }
    assert draws[..k] == draws;
  }

  /** The three-branch ink regeneration every scene runs on its ink seconds:
      below a full bar add `q`, at or above it clamp to 1, and bring a negative
      bar back to 0. */
  method RegenerateSquidInk(squid: Squid, q: real)
    modifies squid`ink
    ensures squid.ink == RegenInk(old(squid.ink), q)
  {
    if squid.ink >= 0.0 && squid.ink < 1.0 {
      squid.ink := squid.ink + q;
    } else if squid.ink >= 1.0 {
      squid.ink := 1.0;
    } else if squid.ink < 0.0 {
      squid.ink := 0.0;
    }
  }

  /** `for _ in 0..<2 { dead.append(DeadSquid(...)) }`, on a copy of the list. */
  method AppendMarkers(dead: seq<DeadSquid>, screenWidth: real, screenHeight: real, firstId: nat,
                       draws: seq<DeadSquidDraw>) returns (markers: seq<DeadSquid>)
    requires |draws| == 2
    requires forall k :: 0 <= k < |draws| ==> ValidDeadSquidDraw(draws[k], screenWidth, screenHeight)
    ensures markers == dead + NewMarkers(screenWidth, screenHeight, firstId, draws)
  {
    markers := dead;
    var k := 0;
    while k < 2
      invariant 0 <= k <= 2
      invariant markers == dead + NewMarkers(screenWidth, screenHeight, firstId, draws[..k])
    {
      assert draws[..k + 1][..k] == draws[..k];
      markers := markers + [NewDeadSquid(screenWidth, screenHeight, firstId + k, draws[k])];
      k := k + 1;
    }
    assert draws[..2] == draws;
  }
}
