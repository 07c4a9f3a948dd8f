/** The game's entities: the player's squid, the falling waste and the cosmetic
    dead-squid markers, with their spawn rules and their collision queries.
    Random draws are parameters whose ranges are the ones the source asks
    `random(in:)` for; a UUID is a natural number the caller never reuses. */
module GameObjects {
  import opened Wrappers
  import opened Geometry

  // ---------------------------------------------------------------------------
  // Numeric conversion

  /** Swift's `Int(x)` for a finite float: truncation toward zero. */
  function Truncate(v: real): (n: int)
    ensures v >= 0.0 ==> n as real <= v < n as real + 1.0
    ensures v < 0.0 ==> n as real - 1.0 < v <= n as real
  {
    if v >= 0.0 then v.Floor else -((-v).Floor)
  }

  // ---------------------------------------------------------------------------
  // Squid (the player)

  const SquidWidth: real := 150.0
  const SquidHeight: real := 75.0

  class Squid {
    /** nil until the scene has laid itself out. */
    var position: Option<Point>
    var ink: real
    const width: real := SquidWidth
    const height: real := SquidHeight

    constructor ()
      ensures position == None && ink == 0.0
    {
      position := None;
      ink := 0.0;
    }

    /** `Int(ink) == 1`. Because the conversion truncates toward zero, this is
        any ink in [1, 2), and every ink in (-1, 1) gives false. */
    function CanEjectInk(): (r: bool)
      reads this
      ensures r <==> 1.0 <= ink < 2.0
      ensures -1.0 < ink < 1.0 ==> !r
    {
      Truncate(ink) == 1
    }
  }

  // ---------------------------------------------------------------------------
  // Waste (the obstacles)

  const WasteSize: real := 80.0

  /** Everything a waste object holds, as a value. */
  datatype WasteState = WasteState(id: nat, name: string, position: Point, velocity: real, rotation: real)

  /** The random draws of one randomly placed waste. `jitter` is the integer
      drawn from -20..<20 that is added to the base velocity. */
  datatype WasteDraw = WasteDraw(x: real, y: real, nameIndex: nat, jitter: int, rotation: real)

  /** The ranges `Waste.init(_:_:from:with:)` draws from. They are non-empty only
      when the screen is wider than 1 and taller than 160 and `names` is not empty. */
  predicate ValidWasteDraw(d: WasteDraw, screenWidth: real, screenHeight: real, nameCount: nat)
  {
    && 1.0 <= d.x < screenWidth
    && -screenHeight / 2.0 <= d.y < -WasteSize
    && d.nameIndex < nameCount
    && -20 <= d.jitter < 20
    && 0.0 <= d.rotation < 360.0
  }

  /** The waste a random spawn produces from its draws. */
  function SpawnedWaste(names: seq<string>, baseVelocity: real, id: nat, d: WasteDraw): (w: WasteState)
    requires d.nameIndex < |names|
    ensures w.id == id && w.name == names[d.nameIndex]
    ensures w.position == Point(d.x, d.y) && w.rotation == d.rotation
    ensures w.velocity == baseVelocity + d.jitter as real
  {
    WasteState(id, names[d.nameIndex], Point(d.x, d.y), baseVelocity + d.jitter as real, d.rotation)
  }

  /** What every random spawn guarantees about the waste it makes. */
  lemma SpawnedWasteInRange(screenWidth: real, screenHeight: real, names: seq<string>,
                            baseVelocity: real, id: nat, d: WasteDraw)
    requires ValidWasteDraw(d, screenWidth, screenHeight, |names|)
    ensures var w := SpawnedWaste(names, baseVelocity, id, d);
      && 1.0 <= w.position.x < screenWidth
      && -screenHeight / 2.0 <= w.position.y < -WasteSize
      && w.name in names
      && -20.0 <= w.velocity - baseVelocity < 20.0
      && (w.velocity - baseVelocity).Floor as real == w.velocity - baseVelocity
      && 0.0 <= w.rotation < 360.0
  {
    var w := SpawnedWaste(names, baseVelocity, id, d);
    assert w.velocity - baseVelocity == d.jitter as real;
  }

  /** The collider of a waste: its 80×80 box around its position. */
  function WasteBox(w: WasteState): (r: Rect)
  {
    CentredBox(w.position, WasteSize, WasteSize)
  }

  /** The collider of the squid. A squid without a position yet is placed as
      if it stood at the origin. */
  function SquidBox(squidPosition: Option<Point>): (r: Rect)
  {
    CentredBox(squidPosition.GetOr(Point(0.0, 0.0)), SquidWidth, SquidHeight)
  }

  /** The waste hits the squid: the centres are less than 40 + 75 apart
      horizontally and less than 40 + 37.5 apart vertically. */
  predicate Colliding(w: WasteState, squidPosition: Option<Point>)
  {
    Intersects(WasteBox(w), SquidBox(squidPosition))
  }

  lemma CollidingByCentres(w: WasteState, squidPosition: Option<Point>)
    ensures var c := squidPosition.GetOr(Point(0.0, 0.0));
      Colliding(w, squidPosition) <==>
        Abs(w.position.x - c.x) < 115.0 && Abs(w.position.y - c.y) < 77.5
  {
    CentredBoxesIntersect(w.position, WasteSize, WasteSize,
                          squidPosition.GetOr(Point(0.0, 0.0)), SquidWidth, SquidHeight);
  }

  /** The collision test reads the same whichever box is taken first. */
  lemma CollidingSymmetric(w: WasteState, squidPosition: Option<Point>)
    ensures Colliding(w, squidPosition) <==> Intersects(SquidBox(squidPosition), WasteBox(w))
  {
    IntersectsSymmetric(WasteBox(w), SquidBox(squidPosition));
  }

  /** A waste centred exactly on the squid always hits it. */
  lemma CollidingAtSameCentre(w: WasteState, squidPosition: Option<Point>)
    requires w.position == squidPosition.GetOr(Point(0.0, 0.0))
    ensures Colliding(w, squidPosition)
  {
    SameCentreIntersects(w.position, WasteSize, WasteSize, SquidWidth, SquidHeight);
  }

  /** The stroke erases the waste: the waste's centre lies inside the stroke
      rectangle grown by half the waste's size on every side. */
  predicate Erasing(w: WasteState, stroke: Rect)
  {
    Intersects(WasteBox(w), stroke)
  }

  lemma ErasingByCentre(w: WasteState, stroke: Rect)
    ensures Erasing(w, stroke) <==>
      && stroke.x - 40.0 < w.position.x < stroke.x + stroke.width + 40.0
      && stroke.y - 40.0 < w.position.y < stroke.y + stroke.height + 40.0
  {
  }

  /** The no-stroke sentinel never erases a waste that stands at x >= 1. */
  lemma SentinelErasesNothingOnScreen(w: WasteState)
    requires w.position.x >= 1.0
    ensures !Erasing(w, NoStroke)
  {
  }

  /** A waste after `move(with: delta)`. */
  function Moved(w: WasteState, delta: real): (m: WasteState)
    ensures m.position.y == w.position.y + w.velocity * delta
    ensures m.position.x == w.position.x
    ensures m.id == w.id && m.name == w.name && m.velocity == w.velocity && m.rotation == w.rotation
  {
    w.(position := Point(w.position.x, w.position.y + w.velocity * delta))
  }

  class Waste {
    var id: nat
    var name: string
    var position: Point
    var velocity: real
    var rotation: real
    const width: real := WasteSize
    const height: real := WasteSize

    function State(): (r: WasteState)
      reads this
    {
      WasteState(id, name, position, velocity, rotation)
    }

    /** `init(_:_:from:with:)`: a waste at a random place just above the screen. */
    constructor Spawn(screenWidth: real, screenHeight: real, names: seq<string>, velocity: real,
                      id: nat, draw: WasteDraw)
      requires ValidWasteDraw(draw, screenWidth, screenHeight, |names|)
      ensures State() == SpawnedWaste(names, velocity, id, draw)
      ensures 1.0 <= position.x < screenWidth && -screenHeight / 2.0 <= position.y < -width
      ensures name in names && 0.0 <= rotation < 360.0
    {
      this.id := id;
      position := Point(draw.x, draw.y);
      name := names[draw.nameIndex];
      this.velocity := velocity + draw.jitter as real;
      rotation := draw.rotation;
    }

    /** `init(_:from:)`: a stationary waste at the given position. */
    constructor Place(position: Point, names: seq<string>, id: nat, nameIndex: nat, rotation: real)
      requires nameIndex < |names| && 0.0 <= rotation < 360.0
      ensures State() == WasteState(id, names[nameIndex], position, 0.0, rotation)
      ensures name in names
    {
      this.id := id;
      this.position := position;
      name := names[nameIndex];
      velocity := 0.0;
      this.rotation := rotation;
    }

    function IsColliding(squid: Squid): (r: bool)
      reads this, squid
      ensures r == Colliding(State(), squid.position)
    {
      Intersects(CentredBox(position, width, height),
                 CentredBox(squid.position.GetOr(Point(0.0, 0.0)), squid.width, squid.height))
    }

    function IsErasing(stroke: Rect): (r: bool)
      reads this
      ensures r == Erasing(State(), stroke)
    {
      Intersects(CentredBox(position, width, height), stroke)
    }

    /** `move(with:)`: only the vertical coordinate changes. */
    method Move(delta: real)
      modifies this
      ensures State() == Moved(old(State()), delta)
    {
      position := Point(position.x, position.y + velocity * delta);
    }

    /** `setWaste(at:with:)`: place, rename, and stop the waste. */
    method SetWaste(position: Point, name: string)
      modifies this
      ensures State() == old(State()).(position := position, name := name, velocity := 0.0)
    {
      this.position := position;
      this.name := name;
      velocity := 0.0;
    }
  }

  /** The states of a list of wastes, in order. */
  function States(ws: seq<Waste>): (r: seq<WasteState>)
    reads ws
  {
    if ws == [] then [] else States(ws[..|ws| - 1]) + [ws[|ws| - 1].State()]
  }

  lemma {:induction false} StatesIndex(ws: seq<Waste>)
    ensures |States(ws)| == |ws|
    ensures forall k :: 0 <= k < |ws| ==> States(ws)[k] == ws[k].State()
  {
    if ws != [] {
      StatesIndex(ws[..|ws| - 1]);
    }
  }

  lemma StatesAt(ws: seq<Waste>, k: nat)
    requires k < |ws|
    ensures |States(ws)| == |ws| && States(ws)[k] == ws[k].State()
  {
    StatesIndex(ws);
  }

  lemma StatesSnoc(ws: seq<Waste>, w: Waste)
    ensures States(ws + [w]) == States(ws) + [w.State()]
  {
    assert (ws + [w])[..|ws|] == ws;
  }

  lemma StatesPrefixStep(ws: seq<Waste>, i: nat)
    requires i < |ws|
    ensures States(ws[..i + 1]) == States(ws[..i]) + [ws[i].State()]
  {
    assert ws[..i + 1] == ws[..i] + [ws[i]];
    StatesSnoc(ws[..i], ws[i]);
  }

  /** The states of a list are fixed by the state of each of its objects. */
  lemma StatesOfEach(ws: seq<Waste>, states: seq<WasteState>)
    requires |ws| == |states| && forall k :: 0 <= k < |ws| ==> ws[k].State() == states[k]
    ensures States(ws) == states
  {
    StatesIndex(ws);
  }

  // ---------------------------------------------------------------------------
  // DeadSquid (cosmetic markers). Nothing changes a marker once it exists, so it
  // is a value.

  const DeadSquidSize: real := 90.0

  datatype DeadSquid = DeadSquid(id: nat, position: Point, rotation: real)
  {
    const width: real := DeadSquidSize
    const height: real := DeadSquidSize
  }

  datatype DeadSquidDraw = DeadSquidDraw(x: real, y: real, rotation: real)

  predicate ValidDeadSquidDraw(d: DeadSquidDraw, screenWidth: real, screenHeight: real)
  {
    1.0 <= d.x < screenWidth && 1.0 <= d.y < screenHeight && 0.0 <= d.rotation < 360.0
  }

  /** `DeadSquid.init(_:_:)`: a marker at a random place on screen. */
  function NewDeadSquid(screenWidth: real, screenHeight: real, id: nat, d: DeadSquidDraw): (m: DeadSquid)
    requires ValidDeadSquidDraw(d, screenWidth, screenHeight)
    ensures 1.0 <= m.position.x < screenWidth && 1.0 <= m.position.y < screenHeight
    ensures 0.0 <= m.rotation < 360.0
    ensures m.width == 90.0 && m.height == 90.0 && m.id == id
  {
    DeadSquid(id, Point(d.x, d.y), d.rotation)
  }
}
