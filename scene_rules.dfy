/** The rules one frame or one second of a scene applies to its list of wastes,
    stated on values: off-screen culling, movement, the effects a frame queues on
    the main queue and what they leave once drained, the erase filter, the cap on
    dead-squid markers, ink regeneration, the hover tick and the squid's
    horizontal mirroring of the hover position. */
module SceneRules {
  import opened Wrappers
  import opened Geometry
  import opened GameObjects

  /** The frame step of every scene: 0.016 s. */
  const DeltaTime: real := 0.016

  /** At most this many dead-squid markers stay on screen. */
  const MaxDeadSquids: nat := 50

  // ---------------------------------------------------------------------------
  // Identities

  function Ids(s: seq<WasteState>): (r: set<nat>)
  {
    set w | w in s :: w.id
  }

  predicate UniqueIds(s: seq<WasteState>)
  {
    forall i, j :: 0 <= i < j < |s| ==> s[i].id != s[j].id
  }

  lemma UniqueIdsSnoc(p: seq<WasteState>, x: WasteState)
    ensures UniqueIds(p + [x]) <==> UniqueIds(p) && x.id !in Ids(p)
  {
    var s := p + [x];
    if UniqueIds(s) {
      assert UniqueIds(p) by {
        forall i, j | 0 <= i < j < |p| ensures p[i].id != p[j].id {
          assert s[i] == p[i] && s[j] == p[j];
        }
      }
      forall w | w in p ensures w.id != x.id {
        var i :| 0 <= i < |p| && p[i] == w;
        assert s[i] == w && s[|p|] == x;
      }
    }
    if UniqueIds(p) && x.id !in Ids(p) {
      forall i, j | 0 <= i < j < |s| ensures s[i].id != s[j].id {
        if j == |p| {
          assert s[i] in p;
        } else {
          assert s[i] == p[i] && s[j] == p[j];
        }
      }
    }
  }

  lemma {:induction false} StatesAppend(a: seq<Waste>, b: seq<Waste>)
    ensures States(a + b) == States(a) + States(b)
    decreases |b|
  {
    if b == [] {
      assert a + b == a;
    } else {
      var b' := b[..|b| - 1];
      assert (a + b)[..|a + b| - 1] == a + b';
      StatesAppend(a, b');
    }
  }

  // ---------------------------------------------------------------------------
  // removeAll(where: { $0.id == id })

  /** The wastes whose id is not in `ids`, in order. */
  function WithoutIds(s: seq<WasteState>, ids: set<nat>): (r: seq<WasteState>)
  {
    if s == [] then []
    else
      var last := s[|s| - 1];
      WithoutIds(s[..|s| - 1], ids) + (if last.id in ids then [] else [last])
  }

  lemma {:induction false} WithoutIdsMembers(s: seq<WasteState>, ids: set<nat>)
    ensures forall w :: w in WithoutIds(s, ids) <==> w in s && w.id !in ids
    ensures |WithoutIds(s, ids)| <= |s|
  {
    if s != [] {
      WithoutIdsMembers(s[..|s| - 1], ids);
      LastSplit(s);
    }
  }

  lemma WithoutIdsSnoc(p: seq<WasteState>, x: WasteState, ids: set<nat>)
    ensures WithoutIds(p + [x], ids) == WithoutIds(p, ids) + (if x.id in ids then [] else [x])
  {
    assert (p + [x])[..|p|] == p;
  }

  lemma {:induction false} WithoutIdsAppend(a: seq<WasteState>, b: seq<WasteState>, ids: set<nat>)
    ensures WithoutIds(a + b, ids) == WithoutIds(a, ids) + WithoutIds(b, ids)
    decreases |b|
  {
    if b == [] {
      assert a + b == a;
    } else {
      var b' := b[..|b| - 1];
      assert (a + b)[..|a + b| - 1] == a + b';
      WithoutIdsAppend(a, b', ids);
    }
  }

  /** Removing ids that are not there changes nothing. */
  lemma {:induction false} WithoutAbsentIds(s: seq<WasteState>, ids: set<nat>)
    requires Ids(s) !! ids
    ensures WithoutIds(s, ids) == s
  {
    if s != [] {
      var p := s[..|s| - 1];
      assert Ids(p) <= Ids(s) by {
        forall id | id in Ids(p) ensures id in Ids(s) {
          var w :| w in p && w.id == id;
          assert w in s;
        }
      }
      WithoutAbsentIds(p, ids);
      assert s[|s| - 1] in s;
      LastSplit(s);
    }
  }

  /** Two removals in a row remove the union. */
  lemma {:induction false} WithoutIdsTwice(s: seq<WasteState>, a: set<nat>, b: set<nat>)
    ensures WithoutIds(WithoutIds(s, a), b) == WithoutIds(s, a + b)
  {
    if s != [] {
      var p := s[..|s| - 1];
      var last := s[|s| - 1];
      WithoutIdsTwice(p, a, b);
      var tail := if last.id in a then [] else [last];
      WithoutIdsAppend(WithoutIds(p, a), tail, b);
      if last.id !in a {
        assert WithoutIds(tail, b) == if last.id in b then [] else [last] by {
          assert tail[..0] == [];
        }
      }
    }
  }

  lemma {:induction false} WithoutIdsKeepsUnique(s: seq<WasteState>, ids: set<nat>)
    requires UniqueIds(s)
    ensures UniqueIds(WithoutIds(s, ids))
  {
    if s != [] {
      var p := s[..|s| - 1];
      var last := s[|s| - 1];
      LastSplit(s);
      UniqueIdsSnoc(p, last);
      WithoutIdsKeepsUnique(p, ids);
      if last.id !in ids {
        WithoutIdsMembers(p, ids);
        assert Ids(WithoutIds(p, ids)) <= Ids(p);
        UniqueIdsSnoc(WithoutIds(p, ids), last);
      }
    }
  }

  /** `removeAll(where: { $0.id == id })` on a list of waste objects. */
  method RemoveAllWithId(ws: seq<Waste>, id: nat) returns (r: seq<Waste>)
    ensures States(r) == WithoutIds(States(ws), {id})
    ensures forall w :: w in r ==> w in ws
  {
    r := [];
    var i := 0;
    while i < |ws|
      invariant 0 <= i <= |ws|
      invariant States(r) == WithoutIds(States(ws[..i]), {id})
      invariant forall w :: w in r ==> w in ws
    {
      var w := ws[i];
      StatesPrefixStep(ws, i);
      WithoutIdsSnoc(States(ws[..i]), w.State(), {id});
      if w.id != id {
        StatesSnoc(r, w);
        r := r + [w];
      }
      i := i + 1;
    }
    assert ws[..i] == ws;
  }

  // ---------------------------------------------------------------------------
  // Cull: wastes that fell past the bottom edge by more than their width

  predicate OnScreen(w: WasteState, screenHeight: real)
  {
    w.position.y <= screenHeight + WasteSize
  }

  /** The wastes still on screen, in order. */
  function Cull(s: seq<WasteState>, screenHeight: real): (r: seq<WasteState>)
  {
    if s == [] then []
    else
      var last := s[|s| - 1];
      Cull(s[..|s| - 1], screenHeight) + (if OnScreen(last, screenHeight) then [last] else [])
  }

  /** The cull keeps exactly the wastes still on screen. */
  lemma {:induction false} CullMembers(s: seq<WasteState>, screenHeight: real)
    ensures forall w :: w in Cull(s, screenHeight) <==> w in s && OnScreen(w, screenHeight)
    ensures |Cull(s, screenHeight)| <= |s|
  {
    if s != [] {
      CullMembers(s[..|s| - 1], screenHeight);
      LastSplit(s);
    }
  }

  /** A non-empty list is its front followed by its last element. */
  lemma LastSplit<T>(s: seq<T>)
    requires s != []
    ensures s == s[..|s| - 1] + [s[|s| - 1]]
    ensures forall x :: x in s[..|s| - 1] ==> x in s
    ensures s[|s| - 1] in s
  {
  }

  /** A list with nothing off screen is its own cull. */
  lemma {:induction false} CullAllOnScreen(s: seq<WasteState>, screenHeight: real)
    requires forall w :: w in s ==> OnScreen(w, screenHeight)
    ensures Cull(s, screenHeight) == s
  {
    if s != [] {
      LastSplit(s);
      CullAllOnScreen(s[..|s| - 1], screenHeight);
    }
  }

  /** Culling twice removes nothing more. */
  lemma CullIdempotent(s: seq<WasteState>, screenHeight: real)
    ensures Cull(Cull(s, screenHeight), screenHeight) == Cull(s, screenHeight)
  {
    CullMembers(s, screenHeight);
    CullAllOnScreen(Cull(s, screenHeight), screenHeight);
  }

  lemma {:induction false} CullKeepsUnique(s: seq<WasteState>, screenHeight: real)
    requires UniqueIds(s)
    ensures UniqueIds(Cull(s, screenHeight))
    ensures Ids(Cull(s, screenHeight)) <= Ids(s)
  {
    if s != [] {
      var p := s[..|s| - 1];
      var last := s[|s| - 1];
      LastSplit(s);
      UniqueIdsSnoc(p, last);
      CullKeepsUnique(p, screenHeight);
      CullMembers(p, screenHeight);
      if OnScreen(last, screenHeight) {
        UniqueIdsSnoc(Cull(p, screenHeight), last);
      }
    }
  }

  /** One step of the cull loop: dropping the first unvisited waste by id when
      it is off screen extends the culled prefix by that waste. */
  lemma CullStep(p: seq<WasteState>, x: WasteState, t: seq<WasteState>, screenHeight: real)
    requires UniqueIds(p + [x] + t)
    ensures (if OnScreen(x, screenHeight) then Cull(p, screenHeight) + [x] + t
             else WithoutIds(Cull(p, screenHeight) + [x] + t, {x.id}))
            == Cull(p + [x], screenHeight) + t
  {
    assert (p + [x])[..|p|] == p;
    if !OnScreen(x, screenHeight) {
      var s := p + [x] + t;
      var c := Cull(p, screenHeight);
      forall w | w in p ensures w.id != x.id {
        var i :| 0 <= i < |p| && p[i] == w;
        assert s[i] == w && s[|p|] == x;
      }
      forall w | w in t ensures w.id != x.id {
        var i :| 0 <= i < |t| && t[i] == w;
        assert s[|p| + 1 + i] == w && s[|p|] == x;
      }
      CullMembers(p, screenHeight);
      assert Ids(c) !! {x.id} by {
        forall id | id in Ids(c) ensures id != x.id {
          var w :| w in c && w.id == id;
          assert w in p;
        }
      }
      WithoutIdsAppend(c + [x], t, {x.id});
      WithoutIdsAppend(c, [x], {x.id});
      WithoutAbsentIds(c, {x.id});
      WithoutAbsentIds(t, {x.id});
      assert WithoutIds([x], {x.id}) == [] by { assert [x][..0] == []; }
    }
  }

  // ---------------------------------------------------------------------------
  // Movement

  /** Every waste moved once by `velocity * delta`. */
  function MoveAll(s: seq<WasteState>, delta: real): (r: seq<WasteState>)
    ensures |r| == |s| && forall k :: 0 <= k < |s| ==> r[k] == Moved(s[k], delta)
  {
    if s == [] then [] else MoveAll(s[..|s| - 1], delta) + [Moved(s[|s| - 1], delta)]
  }

  /** The moved list holds exactly the moved elements of the list. */
  lemma MoveAllMembers(s: seq<WasteState>, delta: real)
    ensures forall w :: w in MoveAll(s, delta) <==> exists w0 :: w0 in s && w == Moved(w0, delta)
  {
    var r := MoveAll(s, delta);
    forall w ensures w in r <==> exists w0 :: w0 in s && w == Moved(w0, delta) {
      if w in r {
        var k :| 0 <= k < |r| && r[k] == w;
        assert s[k] in s;
      }
      if exists w0 :: w0 in s && w == Moved(w0, delta) {
        var w0 :| w0 in s && w == Moved(w0, delta);
        var k :| 0 <= k < |s| && s[k] == w0;
        assert r[k] == w;
      }
    }
  }

  lemma MoveAllKeepsIds(s: seq<WasteState>, delta: real)
    requires UniqueIds(s)
    ensures UniqueIds(MoveAll(s, delta)) && Ids(MoveAll(s, delta)) == Ids(s)
  {
    var m := MoveAll(s, delta);
    forall id | id in Ids(s) ensures id in Ids(m) {
      var k :| 0 <= k < |s| && s[k].id == id;
      assert m[k] in m;
    }
    forall id | id in Ids(m) ensures id in Ids(s) {
      var k :| 0 <= k < |m| && m[k].id == id;
      assert s[k] in s;
    }
  }

  // ---------------------------------------------------------------------------
  // Erasing

  /** The wastes the stroke leaves, in order. */
  function Erase(s: seq<WasteState>, stroke: Rect): (r: seq<WasteState>)
  {
    if s == [] then []
    else
      var last := s[|s| - 1];
      Erase(s[..|s| - 1], stroke) + (if Erasing(last, stroke) then [] else [last])
  }

  /** The erase step removes exactly the wastes the stroke covers. */
  lemma {:induction false} EraseMembers(s: seq<WasteState>, stroke: Rect)
    ensures forall w :: w in Erase(s, stroke) <==> w in s && !Erasing(w, stroke)
    ensures |Erase(s, stroke)| <= |s|
  {
    if s != [] {
      EraseMembers(s[..|s| - 1], stroke);
      LastSplit(s);
    }
  }

  /** The stroke a frame tests against: the latched one, or the sentinel. */
  function StrokeOrSentinel(strokeRect: Option<Rect>): (r: Rect)
  {
    strokeRect.GetOr(NoStroke)
  }

  /** Without a stroke nothing that stands at x >= 1 is erased. */
  lemma {:induction false} NoStrokeErasesNothing(s: seq<WasteState>)
    requires forall w :: w in s ==> w.position.x >= 1.0
    ensures Erase(s, StrokeOrSentinel(None)) == s
  {
    if s != [] {
      LastSplit(s);
      NoStrokeErasesNothing(s[..|s| - 1]);
      SentinelErasesNothingOnScreen(s[|s| - 1]);
    }
  }

  /** The ids of the wastes of `s` the stroke hits. */
  function ErasedIds(s: seq<WasteState>, stroke: Rect): (r: set<nat>)
  {
    set w | w in s && Erasing(w, stroke) :: w.id
  }

  /** The hit ids of a list grown by one waste: those before, and its own id
      when the stroke hits it. */
  lemma ErasedIdsSnoc(p: seq<WasteState>, x: WasteState, stroke: Rect)
    ensures ErasedIds(p + [x], stroke) == ErasedIds(p, stroke) + (if Erasing(x, stroke) then {x.id} else {})
  {
    var s := p + [x];
    forall id | id in ErasedIds(s, stroke)
      ensures id in ErasedIds(p, stroke) + (if Erasing(x, stroke) then {x.id} else {})
    {
      var w :| w in s && Erasing(w, stroke) && w.id == id;
      if w != x {
        assert w in p;
      }
    }
    forall id | id in ErasedIds(p, stroke) ensures id in ErasedIds(s, stroke) {
      var w :| w in p && Erasing(w, stroke) && w.id == id;
      assert w in s;
    }
    if Erasing(x, stroke) {
      assert x in s;
    }
  }

  /** With distinct ids, removing the hit wastes by id is exactly the erase filter. */
  lemma {:induction false} WithoutErasedIds(s: seq<WasteState>, stroke: Rect)
    requires UniqueIds(s)
    ensures WithoutIds(s, ErasedIds(s, stroke)) == Erase(s, stroke)
  {
    if s != [] {
      var p := s[..|s| - 1];
      var last := s[|s| - 1];
      LastSplit(s);
      UniqueIdsSnoc(p, last);
      WithoutErasedIds(p, stroke);
      var extra := ErasedIds(s, stroke) - ErasedIds(p, stroke);
      assert extra <= {last.id};
      assert ErasedIds(s, stroke) == ErasedIds(p, stroke) + extra;
      WithoutIdsTwice(p, ErasedIds(p, stroke), extra);
      WithoutIdsMembers(p, ErasedIds(p, stroke));
      assert Ids(WithoutIds(p, ErasedIds(p, stroke))) <= Ids(p);
      WithoutAbsentIds(WithoutIds(p, ErasedIds(p, stroke)), extra);
      assert last.id in ErasedIds(s, stroke) <==> Erasing(last, stroke);
    }
  }

  // ---------------------------------------------------------------------------
  // Blocks a frame hands to DispatchQueue.main.async

  datatype Deferred =
    | ClearScene          // wastes = [] and dead = [] after a collision
    | RemoveWaste(id: nat) // wastes.removeAll(where: { $0.id == id })

  /** The phase an `onPencilSqueeze` handler receives; the eject reacts to `Ended`. */
  datatype SqueezePhase = SqueezeBegan | SqueezeChanged | SqueezeEnded

  /** The blocks queued for one moved waste: the game-over clear if it hits
      the squid, then its removal if the stroke covers it. */
  function EffectsOf(w: WasteState, squidPosition: Option<Point>, stroke: Rect): (r: seq<Deferred>)
  {
    (if Colliding(w, squidPosition) then [ClearScene] else [])
      + (if Erasing(w, stroke) then [RemoveWaste(w.id)] else [])
  }

  /** The blocks queued while walking the moved wastes, in the order queued. */
  function FrameEffects(s: seq<WasteState>, squidPosition: Option<Point>, stroke: Rect): (r: seq<Deferred>)
  {
    if s == [] then []
    else FrameEffects(s[..|s| - 1], squidPosition, stroke) + EffectsOf(s[|s| - 1], squidPosition, stroke)
  }

  /** One queued block applied to the waste list. */
  function ApplyOne(d: Deferred, s: seq<WasteState>): (r: seq<WasteState>)
  {
    match d
    case ClearScene => []
    case RemoveWaste(id) => WithoutIds(s, {id})
  }

  /** The waste list once every queued block has run, first to last. */
  function ApplyAll(q: seq<Deferred>, s: seq<WasteState>): (r: seq<WasteState>)
  {
    if q == [] then s else ApplyOne(q[|q| - 1], ApplyAll(q[..|q| - 1], s))
  }

  predicate AnyColliding(s: seq<WasteState>, squidPosition: Option<Point>)
  {
    exists k :: 0 <= k < |s| && Colliding(s[k], squidPosition)
  }

  lemma ApplyAllSnoc(q: seq<Deferred>, d: Deferred, s: seq<WasteState>)
    ensures ApplyAll(q + [d], s) == ApplyOne(d, ApplyAll(q, s))
  {
    assert (q + [d])[..|q|] == q;
  }

  /** Running one waste's blocks after a queue q. */
  lemma ApplyEffectsOf(q: seq<Deferred>, w: WasteState, squidPosition: Option<Point>, stroke: Rect,
                       base: seq<WasteState>)
    ensures var r0 := if Colliding(w, squidPosition) then [] else ApplyAll(q, base);
      ApplyAll(q + EffectsOf(w, squidPosition, stroke), base) ==
        if Erasing(w, stroke) then WithoutIds(r0, {w.id}) else r0
  {
    var q1 := q + (if Colliding(w, squidPosition) then [ClearScene] else []);
    if Colliding(w, squidPosition) {
      ApplyAllSnoc(q, ClearScene, base);
    } else {
      assert q1 == q;
    }
    if Erasing(w, stroke) {
      assert q + EffectsOf(w, squidPosition, stroke) == q1 + [RemoveWaste(w.id)];
      ApplyAllSnoc(q1, RemoveWaste(w.id), base);
    } else {
      assert q + EffectsOf(w, squidPosition, stroke) == q1;
    }
  }

  lemma AnyCollidingSnoc(p: seq<WasteState>, x: WasteState, squidPosition: Option<Point>)
    ensures AnyColliding(p + [x], squidPosition) <==> AnyColliding(p, squidPosition) || Colliding(x, squidPosition)
  {
    var s := p + [x];
    if AnyColliding(s, squidPosition) && !Colliding(x, squidPosition) {
      var k :| 0 <= k < |s| && Colliding(s[k], squidPosition);
      assert k < |p| && p[k] == s[k];
    }
    if AnyColliding(p, squidPosition) {
      var k :| 0 <= k < |p| && Colliding(p[k], squidPosition);
      assert s[k] == p[k];
    }
    if Colliding(x, squidPosition) {
      assert s[|p|] == x;
    }
  }

  /** Draining the queue of a frame: a collision anywhere empties the list,
      otherwise exactly the wastes whose ids were queued for removal are gone. */
  lemma {:induction false} ApplyFrameEffects(p: seq<WasteState>, base: seq<WasteState>,
                                             squidPosition: Option<Point>, stroke: Rect)
    ensures ApplyAll(FrameEffects(p, squidPosition, stroke), base) ==
            if AnyColliding(p, squidPosition) then [] else WithoutIds(base, ErasedIds(p, stroke))
  {
    if p == [] {
      assert ErasedIds(p, stroke) == {};
      WithoutAbsentIds(base, {});
    } else {
      var p' := p[..|p| - 1];
      var last := p[|p| - 1];
      LastSplit(p);
      ApplyFrameEffects(p', base, squidPosition, stroke);
      ApplyEffectsOf(FrameEffects(p', squidPosition, stroke), last, squidPosition, stroke, base);
      AnyCollidingSnoc(p', last, squidPosition);
      var extra := if Erasing(last, stroke) then {last.id} else {};
      ErasedIdsSnoc(p', last, stroke);
      if !AnyColliding(p, squidPosition) {
        WithoutIdsTwice(base, ErasedIds(p', stroke), extra);
        if !Erasing(last, stroke) {
          assert ErasedIds(p', stroke) + extra == ErasedIds(p', stroke);
        }
      }
    }
  }

  /** What a frame's queue leaves of the moved wastes. */
  lemma FrameQueueOutcome(moved: seq<WasteState>, squidPosition: Option<Point>, stroke: Rect)
    requires UniqueIds(moved)
    ensures ApplyAll(FrameEffects(moved, squidPosition, stroke), moved) ==
            if AnyColliding(moved, squidPosition) then [] else Erase(moved, stroke)
  {
    ApplyFrameEffects(moved, moved, squidPosition, stroke);
    WithoutErasedIds(moved, stroke);
  }

  /** A collision is queued exactly when some moved waste hits the squid. */
  lemma {:induction false} ClearQueuedIffColliding(s: seq<WasteState>, squidPosition: Option<Point>, stroke: Rect)
    ensures ClearScene in FrameEffects(s, squidPosition, stroke) <==> AnyColliding(s, squidPosition)
  {
    if s != [] {
      var p := s[..|s| - 1];
      var last := s[|s| - 1];
      LastSplit(s);
      ClearQueuedIffColliding(p, squidPosition, stroke);
      AnyCollidingSnoc(p, last, squidPosition);
      assert ClearScene in EffectsOf(last, squidPosition, stroke) <==> Colliding(last, squidPosition);
    }
  }

  /** The wastes a game frame leaves: the on-screen ones moved once, then all
      of them gone if one hits the squid, or else those the stroke covers gone. */
  function FrameWastes(before: seq<WasteState>, screenHeight: real, squidPosition: Option<Point>,
                       stroke: Rect): (r: seq<WasteState>)
  {
    var moved := MoveAll(Cull(before, screenHeight), DeltaTime);
    if AnyColliding(moved, squidPosition) then [] else Erase(moved, stroke)
  }

  /** Without a collision, a waste survives a frame exactly when it was on
      screen before it, and the stroke misses it once moved. */
  lemma FrameWastesMembers(before: seq<WasteState>, screenHeight: real, squidPosition: Option<Point>,
                           stroke: Rect)
    requires !AnyColliding(MoveAll(Cull(before, screenHeight), DeltaTime), squidPosition)
    ensures forall w :: w in FrameWastes(before, screenHeight, squidPosition, stroke) <==>
      (exists w0 :: w0 in before && OnScreen(w0, screenHeight) && w == Moved(w0, DeltaTime))
        && !Erasing(w, stroke)
  {
    var culled := Cull(before, screenHeight);
    EraseMembers(MoveAll(culled, DeltaTime), stroke);
    MoveAllMembers(culled, DeltaTime);
    CullMembers(before, screenHeight);
  }

  /** No waste left after a frame touches the squid. */
  lemma FrameWastesMissSquid(before: seq<WasteState>, screenHeight: real, squidPosition: Option<Point>,
                             stroke: Rect)
    ensures forall w :: w in FrameWastes(before, screenHeight, squidPosition, stroke) ==>
      !Colliding(w, squidPosition)
  {
    var moved := MoveAll(Cull(before, screenHeight), DeltaTime);
    if !AnyColliding(moved, squidPosition) {
      EraseMembers(moved, stroke);
      forall w | w in Erase(moved, stroke) ensures !Colliding(w, squidPosition) {
        var k :| 0 <= k < |moved| && moved[k] == w;
      }
    }
  }

  /** A frame keeps ids distinct and invents none. */
  lemma FrameWastesKeepIds(before: seq<WasteState>, screenHeight: real, squidPosition: Option<Point>,
                           stroke: Rect)
    requires UniqueIds(before)
    ensures UniqueIds(FrameWastes(before, screenHeight, squidPosition, stroke))
    ensures Ids(FrameWastes(before, screenHeight, squidPosition, stroke)) <= Ids(before)
  {
    var culled := Cull(before, screenHeight);
    var moved := MoveAll(culled, DeltaTime);
    CullKeepsUnique(before, screenHeight);
    MoveAllKeepsIds(culled, DeltaTime);
    if !AnyColliding(moved, squidPosition) {
      WithoutErasedIds(moved, stroke);
      WithoutIdsKeepsUnique(moved, ErasedIds(moved, stroke));
      WithoutIdsMembers(moved, ErasedIds(moved, stroke));
      var r := Erase(moved, stroke);
      forall id | id in Ids(r) ensures id in Ids(moved) {
        var w :| w in r && w.id == id;
      }
    }
  }

  /** What draining a frame's queue leaves, from the list before the frame:
      the wastes `FrameWastes` describes, a clear exactly when one collided,
      and distinct ids taken from the list before. */
  lemma FrameDrainOutcome(before: seq<WasteState>, screenHeight: real, squidPosition: Option<Point>,
                          stroke: Rect, drained: seq<WasteState>)
    requires UniqueIds(before)
    requires drained == ApplyAll(FrameEffects(MoveAll(Cull(before, screenHeight), DeltaTime), squidPosition, stroke),
                                 MoveAll(Cull(before, screenHeight), DeltaTime))
    ensures drained == FrameWastes(before, screenHeight, squidPosition, stroke)
    ensures ClearScene in FrameEffects(MoveAll(Cull(before, screenHeight), DeltaTime), squidPosition, stroke) <==>
      AnyColliding(MoveAll(Cull(before, screenHeight), DeltaTime), squidPosition)
    ensures UniqueIds(drained) && Ids(drained) <= Ids(before)
  {
    var moved := MoveAll(Cull(before, screenHeight), DeltaTime);
    CullKeepsUnique(before, screenHeight);
    MoveAllKeepsIds(Cull(before, screenHeight), DeltaTime);
    FrameQueueOutcome(moved, squidPosition, stroke);
    ClearQueuedIffColliding(moved, squidPosition, stroke);
    FrameWastesKeepIds(before, screenHeight, squidPosition, stroke);
  }

  // ---------------------------------------------------------------------------
  // The tutorial's erase-only frame

  /** The removal blocks queued for the wastes the stroke covers, in order. */
  function EraseEffects(s: seq<WasteState>, stroke: Rect): (r: seq<Deferred>)
  {
    if s == [] then []
    else
      var last := s[|s| - 1];
      EraseEffects(s[..|s| - 1], stroke) + (if Erasing(last, stroke) then [RemoveWaste(last.id)] else [])
  }

  /** Some block is queued exactly when the stroke covers some waste; every
      block queued is a removal. */
  lemma {:induction false} EraseEffectsQueued(s: seq<WasteState>, stroke: Rect)
    ensures EraseEffects(s, stroke) != [] <==> exists k :: 0 <= k < |s| && Erasing(s[k], stroke)
    ensures forall k :: 0 <= k < |EraseEffects(s, stroke)| ==> EraseEffects(s, stroke)[k].RemoveWaste?
  {
    if s != [] {
      var p := s[..|s| - 1];
      var last := s[|s| - 1];
      EraseEffectsQueued(p, stroke);
      if exists k :: 0 <= k < |p| && Erasing(p[k], stroke) {
        var k :| 0 <= k < |p| && Erasing(p[k], stroke);
        assert s[k] == p[k];
      }
      if exists k :: 0 <= k < |s| && Erasing(s[k], stroke) {
        var k :| 0 <= k < |s| && Erasing(s[k], stroke);
        if k < |p| {
          assert p[k] == s[k];
        }
      }
    }
  }

  /** Draining the erase-only queue removes exactly the covered wastes. */
  lemma {:induction false} ApplyEraseEffects(p: seq<WasteState>, base: seq<WasteState>, stroke: Rect)
    ensures ApplyAll(EraseEffects(p, stroke), base) == WithoutIds(base, ErasedIds(p, stroke))
  {
    if p == [] {
      assert ErasedIds(p, stroke) == {};
      WithoutAbsentIds(base, {});
    } else {
      var p' := p[..|p| - 1];
      var last := p[|p| - 1];
      LastSplit(p);
      ApplyEraseEffects(p', base, stroke);
      var extra := if Erasing(last, stroke) then {last.id} else {};
      ErasedIdsSnoc(p', last, stroke);
      WithoutIdsTwice(base, ErasedIds(p', stroke), extra);
      if Erasing(last, stroke) {
        ApplyAllSnoc(EraseEffects(p', stroke), RemoveWaste(last.id), base);
      } else {
        assert EraseEffects(p, stroke) == EraseEffects(p', stroke);
        assert ErasedIds(p, stroke) == ErasedIds(p', stroke);
      }
    }
  }

  /** Some waste of the list is covered by the stroke. */
  predicate AnyErasing(s: seq<WasteState>, stroke: Rect)
  {
    exists k :: 0 <= k < |s| && Erasing(s[k], stroke)
  }

  /** The erase filter shortens the list exactly when the stroke covers one of
      its wastes, and leaves it alone otherwise. */
  lemma {:induction false} EraseShrinksIff(s: seq<WasteState>, stroke: Rect)
    ensures |Erase(s, stroke)| < |s| <==> AnyErasing(s, stroke)
    ensures !AnyErasing(s, stroke) ==> Erase(s, stroke) == s
  {
    if s != [] {
      var p, last := s[..|s| - 1], s[|s| - 1];
      LastSplit(s);
      EraseShrinksIff(p, stroke);
      EraseMembers(p, stroke);
      if AnyErasing(p, stroke) {
        var k :| 0 <= k < |p| && Erasing(p[k], stroke);
        assert s[k] == p[k];
      }
      if AnyErasing(s, stroke) && !Erasing(last, stroke) {
        var k :| 0 <= k < |s| && Erasing(s[k], stroke);
        assert k < |p| && p[k] == s[k];
      }
    }
  }

  /** The erase filter keeps the numbering of a list: distinct ids, all below
      a bound. */
  lemma EraseKeepsIds(s: seq<WasteState>, stroke: Rect, bound: nat)
    requires UniqueIds(s) && forall id :: id in Ids(s) ==> id < bound
    ensures UniqueIds(Erase(s, stroke)) && forall id :: id in Ids(Erase(s, stroke)) ==> id < bound
  {
    var e := Erase(s, stroke);
    WithoutErasedIds(s, stroke);
    WithoutIdsKeepsUnique(s, ErasedIds(s, stroke));
    EraseMembers(s, stroke);
    forall id | id in Ids(e) ensures id < bound {
      var w :| w in e && w.id == id;
      assert w in s && w.id in Ids(s);
    }
  }

  /** What the tutorial's queue leaves: the erase filter. */
  lemma EraseQueueOutcome(s: seq<WasteState>, stroke: Rect)
    requires UniqueIds(s)
    ensures ApplyAll(EraseEffects(s, stroke), s) == Erase(s, stroke)
  {
    ApplyEraseEffects(s, s, stroke);
    WithoutErasedIds(s, stroke);
  }

  // ---------------------------------------------------------------------------
  // Spawning

  /** Distinct ids mean distinct objects. */
  lemma DistinctWastes(ws: seq<Waste>)
    requires UniqueIds(States(ws))
    ensures forall i, j :: 0 <= i < |ws| && 0 <= j < |ws| && i != j ==> ws[i] != ws[j]
  {
    StatesIndex(ws);
    forall i, j | 0 <= i < |ws| && 0 <= j < |ws| && i != j ensures ws[i] != ws[j] {
      if i < j {
        assert States(ws)[i].id != States(ws)[j].id;
      } else {
        assert States(ws)[j].id != States(ws)[i].id;
      }
    }
  }

  /** The wastes of one wave on a screenWidth × screenHeight screen, the k-th
      drawn with `draws[k]` and given id firstId + k. */
  function SpawnedWastes(screenWidth: real, screenHeight: real, names: seq<string>, velocity: real,
                         firstId: nat, draws: seq<WasteDraw>): (r: seq<WasteState>)
    requires forall k :: 0 <= k < |draws| ==> ValidWasteDraw(draws[k], screenWidth, screenHeight, |names|)
  {
    if draws == [] then []
    else
      var last := draws[|draws| - 1];
      assert ValidWasteDraw(last, screenWidth, screenHeight, |names|);
      SpawnedWastes(screenWidth, screenHeight, names, velocity, firstId, draws[..|draws| - 1])
        + [SpawnedWaste(names, velocity, firstId + |draws| - 1, last)]
  }

  lemma {:induction false} SpawnedWastesIndex(screenWidth: real, screenHeight: real, names: seq<string>,
                                              velocity: real, firstId: nat, draws: seq<WasteDraw>)
    requires forall k :: 0 <= k < |draws| ==> ValidWasteDraw(draws[k], screenWidth, screenHeight, |names|)
    ensures |SpawnedWastes(screenWidth, screenHeight, names, velocity, firstId, draws)| == |draws|
    ensures forall k :: 0 <= k < |draws| ==>
      SpawnedWastes(screenWidth, screenHeight, names, velocity, firstId, draws)[k]
        == SpawnedWaste(names, velocity, firstId + k, draws[k])
  {
    if draws != [] {
      SpawnedWastesIndex(screenWidth, screenHeight, names, velocity, firstId, draws[..|draws| - 1]);
    }
  }

  /** A wave numbered from above every id in use keeps ids distinct, and the
      next free id moves past the wave. */
  lemma SpawnKeepsUnique(s: seq<WasteState>, screenWidth: real, screenHeight: real, names: seq<string>,
                         velocity: real, firstId: nat, draws: seq<WasteDraw>)
    requires forall k :: 0 <= k < |draws| ==> ValidWasteDraw(draws[k], screenWidth, screenHeight, |names|)
    requires UniqueIds(s) && forall id :: id in Ids(s) ==> id < firstId
    ensures UniqueIds(s + SpawnedWastes(screenWidth, screenHeight, names, velocity, firstId, draws))
    ensures forall id :: id in Ids(s + SpawnedWastes(screenWidth, screenHeight, names, velocity, firstId, draws)) ==>
      id < firstId + |draws|
  {
    var sp := SpawnedWastes(screenWidth, screenHeight, names, velocity, firstId, draws);
    SpawnedWastesIndex(screenWidth, screenHeight, names, velocity, firstId, draws);
    var t := s + sp;
    forall i, j | 0 <= i < j < |t| ensures t[i].id != t[j].id {
      if j < |s| {
        assert t[i] == s[i] && t[j] == s[j];
      } else if i < |s| {
        assert t[i] in s;
        assert t[i].id in Ids(s);
        assert t[j] == sp[j - |s|];
        assert t[j].id == firstId + (j - |s|);
      } else {
        assert t[i] == sp[i - |s|] && t[j] == sp[j - |s|];
        assert t[i].id == firstId + (i - |s|) && t[j].id == firstId + (j - |s|);
      }
    }
    forall id | id in Ids(t) ensures id < firstId + |draws| {
      var w :| w in t && w.id == id;
      if w in s {
        assert w.id in Ids(s);
      } else {
        var k :| 0 <= k < |sp| && sp[k] == w;
        assert w.id == firstId + k;
      }
    }
  }

  /** The dead-squid markers of one second, the k-th drawn with `draws[k]`. */
  function NewMarkers(screenWidth: real, screenHeight: real, firstId: nat, draws: seq<DeadSquidDraw>): (r: seq<DeadSquid>)
    requires forall k :: 0 <= k < |draws| ==> ValidDeadSquidDraw(draws[k], screenWidth, screenHeight)
  {
    if draws == [] then []
    else
      var last := draws[|draws| - 1];
      assert ValidDeadSquidDraw(last, screenWidth, screenHeight);
      NewMarkers(screenWidth, screenHeight, firstId, draws[..|draws| - 1])
        + [NewDeadSquid(screenWidth, screenHeight, firstId + |draws| - 1, last)]
  }

  /** Every marker of a second lies on screen, upright within a turn, 90×90. */
  lemma {:induction false} NewMarkersInRange(screenWidth: real, screenHeight: real, firstId: nat,
                                             draws: seq<DeadSquidDraw>)
    requires forall k :: 0 <= k < |draws| ==> ValidDeadSquidDraw(draws[k], screenWidth, screenHeight)
    ensures var r := NewMarkers(screenWidth, screenHeight, firstId, draws);
      && |r| == |draws|
      && forall k :: 0 <= k < |r| ==>
        && r[k].id == firstId + k
        && 1.0 <= r[k].position.x < screenWidth && 1.0 <= r[k].position.y < screenHeight
        && 0.0 <= r[k].rotation < 360.0 && r[k].width == DeadSquidSize
  {
    if draws != [] {
      NewMarkersInRange(screenWidth, screenHeight, firstId, draws[..|draws| - 1]);
    }
  }

  // ---------------------------------------------------------------------------
  // Dead-squid cap

  /** The newest `n` markers (all of them when there are no more than `n`). */
  function Newest<T>(s: seq<T>, n: nat): (r: seq<T>)
  {
    if |s| <= n then s else s[|s| - n..]
  }

  /** The cap keeps the last min(|s|, n) markers, in order, and dropping only
      from the front means a capped list is left alone by a second cap. */
  lemma NewestKeepsLatest<T>(s: seq<T>, n: nat)
    ensures var r := Newest(s, n);
      && |r| == (if |s| <= n then |s| else n)
      && (forall k :: 0 <= k < |r| ==> r[k] == s[|s| - |r| + k])
      && Newest(r, n) == r
  {
  }

  /** A marker that is among the newest n stays there when fewer than n newer
      ones are appended. */
  lemma NewestAfterAppend<T>(s: seq<T>, t: seq<T>, n: nat)
    requires |t| <= n
    ensures Newest(s + t, n)[|Newest(s + t, n)| - |t|..] == t
  {
    var u := s + t;
    if |u| > n {
      assert u[|u| - n..][n - |t|..] == t;
    } else {
      assert u[|u| - |t|..] == t;
    }
  }

  // ---------------------------------------------------------------------------
  // Ink regeneration

  /** One regeneration step with quantity q. */
  function RegenInk(ink: real, q: real): (r: real)
  {
    if 0.0 <= ink < 1.0 then ink + q
    else if ink >= 1.0 then 1.0
    else 0.0
  }

  /** Regeneration keeps ink in [0, 1 + q), and brings any ink into it. */
  lemma RegenBand(ink: real, q: real)
    requires 0.0 < q
    ensures 0.0 <= RegenInk(ink, q) < 1.0 + q
    ensures 0.0 <= ink < 1.0 ==> RegenInk(ink, q) == ink + q
    ensures ink >= 1.0 ==> RegenInk(ink, q) == 1.0
    ensures ink < 0.0 ==> RegenInk(ink, q) == 0.0
  {
  }

  /** Ink after n regeneration steps. */
  function RegenTimes(n: nat, q: real, ink: real): (r: real)
  {
    if n == 0 then ink else RegenInk(RegenTimes(n - 1, q, ink), q)
  }

  lemma QuotientBelowOne(a: real, b: real)
    requires 0.0 < b && a < b
    ensures a / b < 1.0
  {
    assert a / b * b == a;
  }

  /** With q = 1/m, n steps from empty give min(n, m)/m: the bar is full after
      exactly m steps and stays full. */
  lemma {:induction false} RegenFromEmpty(m: nat, n: nat)
    requires m >= 1
    ensures RegenTimes(n, 1.0 / m as real, 0.0) == (if n <= m then n else m) as real / m as real
  {
    if n > 0 {
      RegenFromEmpty(m, n - 1);
      var prev := RegenTimes(n - 1, 1.0 / m as real, 0.0);
      if n - 1 < m {
        assert prev == (n - 1) as real / m as real;
        QuotientBelowOne((n - 1) as real, m as real);
        assert prev + 1.0 / m as real == n as real / m as real;
      } else {
        assert prev == 1.0;
      }
    }
  }

  // ---------------------------------------------------------------------------
  // Squid mirroring and the hover tick

  /** `squid.position?.x = hoverPosition?.x ?? bufferX`: a squid without a
      position keeps none; otherwise only x follows the hover, when there is one. */
  function MirrorHover(position: Option<Point>, hover: Option<Point>): (r: Option<Point>)
    ensures r.None? <==> position.None?
    ensures r.Some? ==> r.value.y == position.value.y
    ensures r.Some? && hover.Some? ==> r.value.x == hover.value.x
    ensures hover.None? ==> r == position
  {
    match position
    case None => None
    case Some(p) => Some(Point(if hover.Some? then hover.value.x else p.x, p.y))
  }

  /** `hoverTick += 1; if hoverTick > 60 { hoverTick = 0 }`. */
  function NextHoverTick(t: int): (r: int)
  {
    if t + 1 > 60 then 0 else t + 1
  }

  lemma HoverTickCycles(t: int)
    requires 0 <= t <= 60
    ensures 0 <= NextHoverTick(t) <= 60
    ensures NextHoverTick(t) == (t + 1) % 61
  {
  }

  // ---------------------------------------------------------------------------
  // The seconds schedule

  /** `seconds % rate == 0` */
  predicate WaveSecond(seconds: nat, rate: nat)
  {
    rate > 0 && seconds % rate == 0
  }

  /** `seconds % rate - 1 == 0` */
  predicate MarkerSecond(seconds: nat, rate: nat)
  {
    rate > 0 && seconds % rate - 1 == 0
  }

  lemma MarkerSecondIsRemainderOne(seconds: nat, rate: nat)
    requires rate > 0
    ensures MarkerSecond(seconds, rate) <==> seconds % rate == 1
    ensures !(WaveSecond(seconds, rate) && MarkerSecond(seconds, rate))
  {
  }
}
