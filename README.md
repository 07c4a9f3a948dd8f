# Octinks, modelled in Dafny

Octinks is an iPad game. The player is a squid at the bottom of the screen.
Waste falls from above and ends the game when it hits the squid. Hovering the
Apple Pencil (or panning with two fingers) moves the squid sideways. Drawing
a stroke over waste erases it, and every change of the drawing costs ink.
With a full bar, a pencil squeeze or a shake of the iPad ejects the ink and
clears the screen. A tutorial of five pages introduces these mechanics one at
a time.

This project models the rules behind the game and proves what they
guarantee. It covers:

- the entities: the squid, the falling waste and the cosmetic dead-squid
  markers, with their random spawn ranges and their collision and erase
  tests;
- the game session: its one-second handler (waves, markers, ink
  regeneration, the score, the difficulty ramp), its 16 ms frame handler
  (cull, move, collide, erase, cap the markers, mirror the hover onto the
  squid) and the ink eject;
- the stylus coordinator: the ink charged for each drawing change, the gate
  that enables drawing, the published hover position and stroke rectangle,
  and the stroke-expiry timers;
- the tutorial: the page counter, the two lessons with stationary waste,
  and the movement lesson.

## Modelling choices

- Screen coordinates, velocities and ink are `real`: exact arithmetic, not
  IEEE floats. `Int(ink)` is written out as truncation toward zero
  (`GameObjects.Truncate`).
- Randomness is passed in. Each random spawn takes a draw record, and a
  precondition confines each draw to the range the source asks
  `random(in:)` for. When such a range is empty, for example
  `-H/2..<-80` on a screen 160 points high or less, `random(in:)` traps in
  the source and no valid draw exists. Draws are needed only on the seconds
  that use them: a wave's draws on wave seconds, the markers' on marker
  seconds.
- A UUID is a natural number from a per-scene counter. The scene invariant
  says that ids are distinct and below the counter.
- Objects the source mutates in place are classes: `Squid`, `Waste`,
  `Coordinator`, the game session and the tutorial scenes. A dead-squid
  marker is never changed after it is made, so it is a datatype.
  `Waste.State()` is the value view of a waste. `States(ws)` lists those
  states, and the per-tick rules are proved on such lists.
- A handler's `DispatchQueue.main.async` blocks are `Deferred` values. They
  are queued in order and run, in that order, when the handler returns.
- Cancelling the timers sets a `stopped` flag. A handler called on a stopped
  scene does nothing.
- Timer publishers, gesture recognisers and PencilKit are outside the model.
  Their outputs are parameters: a second or a frame is a method call, a
  gesture is a phase and a location, a drawing is the list of its strokes'
  bounds, and a stroke timer firing is a call of `RemoveStroke`.
- `CGRect.intersects` is strict overlap on both axes. No property is stated
  at an exact boundary.

## Model

| member | source | states |
|---|---|---|
| Geometry.CentredBox | Octinks.swiftpm/GameObjects.swift:72-73 | the collider of an object is the rectangle of its size centred on its position |
| Geometry.CentredBoxesIntersect | Octinks.swiftpm/GameObjects.swift:70-77 | two centred boxes overlap iff their centres are closer than half the summed widths horizontally and half the summed heights vertically |
| Geometry.IntersectsSymmetric | Octinks.swiftpm/GameObjects.swift:75 | the overlap test does not depend on which rectangle comes first |
| Geometry.SameCentreIntersects | Octinks.swiftpm/GameObjects.swift:70-77 | two boxes of positive size with the same centre always overlap |
| GameObjects.Truncate | Octinks.swiftpm/GameObjects.swift:21 | `Int(v)` truncates toward zero: for v ≥ 0 the result is the floor, for v < 0 the ceiling |
| GameObjects.Squid.CanEjectInk | Octinks.swiftpm/GameObjects.swift:20-23 | the eject gate holds iff 1 ≤ ink < 2; any ink in (-1, 1) gives false |
| GameObjects.Squid.constructor | Octinks.swiftpm/GameObjects.swift:12-17 | a new squid has no position and an empty bar |
| GameObjects.SpawnedWasteInRange | Octinks.swiftpm/GameObjects.swift:54-60 | with in-range draws: 1 ≤ x < W, -H/2 ≤ y < -80, the sprite is one of the names, the velocity is the base plus an integer in [-20, 20), and 0 ≤ rotation < 360 |
| GameObjects.Waste.Spawn | Octinks.swiftpm/GameObjects.swift:54-60 | the random initialiser builds exactly the state `SpawnedWaste` gives, inside the ranges above |
| GameObjects.Waste.Place | Octinks.swiftpm/GameObjects.swift:62-67 | the fixed-position initialiser keeps the given position exactly, takes a sprite of the set and sets velocity 0 |
| GameObjects.Waste.IsColliding | Octinks.swiftpm/GameObjects.swift:70-77 | the object test is the value-level collision of its state with the squid's position |
| GameObjects.CollidingByCentres | Octinks.swiftpm/GameObjects.swift:70-77 | a waste hits the squid iff the centres are less than 115 apart horizontally and less than 77.5 apart vertically; a squid without a position counts as standing at (0, 0) |
| GameObjects.CollidingSymmetric | Octinks.swiftpm/GameObjects.swift:70-77 | the collision reads the same with the squid's box taken first |
| GameObjects.CollidingAtSameCentre | Octinks.swiftpm/GameObjects.swift:70-77 | a waste centred on the squid always hits it |
| GameObjects.Waste.IsErasing | Octinks.swiftpm/GameObjects.swift:80-84 | the erase test is the overlap of the waste's 80×80 box with the stroke; it only reads the waste |
| GameObjects.ErasingByCentre | Octinks.swiftpm/GameObjects.swift:80-84 | a stroke erases a waste iff the waste's centre lies inside the stroke grown by 40 on every side |
| GameObjects.SentinelErasesNothingOnScreen | Octinks/GameSceneView.swift:231 | the 2×2 no-stroke sentinel at (-1000, -1000) erases no waste at x ≥ 1 |
| GameObjects.Moved | Octinks.swiftpm/GameObjects.swift:87-89 | a move adds velocity·delta to y and keeps x, id, name, velocity and rotation |
| GameObjects.Waste.Move | Octinks.swiftpm/GameObjects.swift:87-89 | moving an object in place leaves the state `Moved` gives |
| GameObjects.Waste.SetWaste | Octinks.swiftpm/GameObjects.swift:92-96 | the position and the name are set exactly, the velocity becomes 0, and id and rotation stay |
| GameObjects.NewDeadSquid | Octinks.swiftpm/GameObjects.swift:35-39 | a marker lies at 1 ≤ x < W and 1 ≤ y < H, with 0 ≤ rotation < 360 and a 90×90 size |
| SceneRules.UniqueIdsSnoc | Octinks/GameSceneView.swift:151 | appending a waste keeps the ids distinct iff its id is new |
| SceneRules.WithoutIdsMembers | Octinks/GameSceneView.swift:213 | `removeAll(where:)` by id keeps exactly the wastes whose id is not removed, in order |
| SceneRules.WithoutIdsKeepsUnique | Octinks/GameSceneView.swift:213 | removing by id keeps the ids distinct |
| SceneRules.RemoveAllWithId | Octinks/GameSceneView.swift:213 | the loop on objects leaves exactly the value-level removal by id, using only objects of the list |
| SceneRules.CullMembers | Octinks/GameSceneView.swift:212-214 | the cull keeps exactly the wastes still on screen (y ≤ H + 80), and never lengthens the list |
| SceneRules.CullAllOnScreen | Octinks/GameSceneView.swift:212-214 | a list with everything on screen is left alone by the cull |
| SceneRules.CullIdempotent | Octinks/GameSceneView.swift:212-214 | culling twice is culling once |
| SceneRules.CullKeepsUnique | Octinks/GameSceneView.swift:212-214 | the cull keeps ids distinct and introduces none |
| SceneRules.CullStep | Octinks/GameSceneView.swift:212-214 | removing an off-screen waste by id from the partly culled list is the cull of one more waste, given distinct ids |
| SceneRules.MoveAll | Octinks/GameSceneView.swift:216-218 | every waste moves exactly once, in order, and the list keeps its length |
| SceneRules.MoveAllMembers | Octinks/GameSceneView.swift:216-218 | the moved list holds exactly the moved wastes of the list |
| SceneRules.MoveAllKeepsIds | Octinks/GameSceneView.swift:216-218 | moving keeps the ids, and keeps them distinct |
| SceneRules.EraseMembers | Octinks/GameSceneView.swift:231-236 | the erase step keeps exactly the wastes the stroke does not cover, and never lengthens the list |
| SceneRules.NoStrokeErasesNothing | Octinks/GameSceneView.swift:231 | with no stroke, the sentinel leaves a list whose wastes all stand at x ≥ 1 unchanged |
| SceneRules.ErasedIdsSnoc | Octinks/GameSceneView.swift:231-236 | the covered ids of a longer list are the old ones plus the new waste's id when the stroke covers it |
| SceneRules.WithoutErasedIds | Octinks/GameSceneView.swift:231-236 | with distinct ids, removing the covered ids one block at a time is exactly the erase filter |
| SceneRules.ApplyAllSnoc | Octinks/GameSceneView.swift:223-235 | running one more queued block runs it on what the earlier blocks left |
| SceneRules.ApplyEffectsOf | Octinks/GameSceneView.swift:220-236 | the blocks one moved waste queues clear the list after a collision, and otherwise remove the waste when the stroke covers it |
| SceneRules.AnyCollidingSnoc | Octinks/GameSceneView.swift:220 | a longer list collides iff the old list or the new waste does |
| SceneRules.ApplyFrameEffects | Octinks/GameSceneView.swift:216-238 | the frame's queue empties the list after any collision, and otherwise removes exactly the covered ids |
| SceneRules.FrameQueueOutcome | Octinks/GameSceneView.swift:216-238 | on moved wastes with distinct ids, the frame's queue leaves nothing after a collision and the erase filter otherwise |
| SceneRules.ClearQueuedIffColliding | Octinks/GameSceneView.swift:220-229 | the game-over clear is queued iff some moved waste hits the squid |
| SceneRules.FrameWastesMembers | Octinks/GameSceneView.swift:212-238 | when no moved waste hits the squid, a frame leaves exactly the moved on-screen wastes the stroke misses |
| SceneRules.FrameWastesMissSquid | Octinks/GameSceneView.swift:216-229 | no waste a frame leaves is touching the squid |
| SceneRules.FrameWastesKeepIds | Octinks/GameSceneView.swift:212-238 | a frame keeps ids distinct and introduces none |
| SceneRules.FrameDrainOutcome | Octinks/GameSceneView.swift:212-238 | the drained queue is the frame's result; the clear was queued iff a moved waste collided; ids stay distinct and old |
| SceneRules.EraseEffectsQueued | Octinks/TutorialView.swift:236-250 | the lesson frame queues a block iff the stroke covers some waste, and every block it queues is a removal |
| SceneRules.ApplyEraseEffects | Octinks/TutorialView.swift:236-250 | the lesson's queue removes exactly the covered ids |
| SceneRules.EraseShrinksIff | Octinks/TutorialView.swift:240-245 | the erase filter shortens the list iff the stroke covers some waste, and otherwise leaves it unchanged |
| SceneRules.EraseKeepsIds | Octinks/TutorialView.swift:236-250 | the erase filter keeps ids distinct and below any bound they were below |
| SceneRules.EraseQueueOutcome | Octinks/TutorialView.swift:236-250 | with distinct ids, the lesson's queue leaves exactly the erase filter |
| SceneRules.DistinctWastes | Octinks/GameSceneView.swift:216-218 | wastes with distinct ids are distinct objects, so the frame moves each object once |
| SceneRules.SpawnedWastesIndex | Octinks/GameSceneView.swift:150-152 | a wave has one waste per draw, numbered consecutively, each inside the spawn ranges with the wave's base velocity |
| SceneRules.SpawnKeepsUnique | Octinks/GameSceneView.swift:150-152 | appending a wave numbered from the id counter keeps ids distinct and below the advanced counter |
| SceneRules.NewMarkersInRange | Octinks/GameSceneView.swift:157-159 | the markers of a second lie on screen with rotations in [0, 360) |
| SceneRules.NewestKeepsLatest | Octinks/GameSceneView.swift:241-249 | the cap to n keeps the last min(count, n) items in their order, and a capped list is left alone by a second cap |
| SceneRules.NewestAfterAppend | Octinks/GameSceneView.swift:241-249 | at most n items appended just before the cap all survive it, in order |
| SceneRules.RegenBand | Octinks/GameSceneView.swift:162-166 | a step adds q to ink in [0, 1), sets ink ≥ 1 to 1 and ink < 0 to 0, and always lands in [0, 1 + q) |
| SceneRules.RegenFromEmpty | Octinks/GameSceneView.swift:162-166 | with q = 1/m, n steps from an empty bar give min(n, m)/m, so the bar is full after exactly m steps and stays full |
| SceneRules.MirrorHover | Octinks/GameSceneView.swift:193-195 | a squid with a position keeps y and takes the hover's x when there is one; a squid without one stays without |
| SceneRules.HoverTickCycles | Octinks/GameSceneView.swift:197-198 | the hover tick stays in 0..60 and steps round modulo 61 |
| SceneRules.MarkerSecondIsRemainderOne | Octinks/GameSceneView.swift:149-156 | `seconds % 3 - 1 == 0` means a remainder of 1, so waves and markers never share a second |
| HoverView.HoverAfter | Octinks/HoverView.swift:88-102 | the published hover is the location on began or changed, and nil in every other phase |
| HoverView.SpendStrokeInk | Octinks/HoverView.swift:140-145 | a drawing change takes 0.1 of ink, and a bar left below 0.1 becomes empty, so the ink is then 0 or at least 0.1 |
| HoverView.SpendStrokeInkInBand | Octinks/HoverView.swift:140-145 | spending ink keeps the bar inside [0, bound) |
| HoverView.ValidIndices | Octinks/HoverView.swift:163 | `Set(0..<n)` holds exactly the indices 0 to n - 1 |
| HoverView.RemovedAt | Octinks/HoverView.swift:177 | removing stroke i keeps the strokes before it and shifts the later ones down by one |
| HoverView.Coordinator.constructor | Octinks/HoverView.swift:58-71 | a new coordinator shares the squid, allows drawing and holds no strokes or timers |
| HoverView.Coordinator.GestureUpdate | Octinks/HoverView.swift:77-102 | the ink gate opens when ink ≥ 0.1 and is otherwise kept; drawing is enabled iff the gate is open; the hover follows `HoverAfter` |
| HoverView.Coordinator.HandleHover | Octinks/HoverView.swift:106-135 | the pencil hover handler does exactly the gesture update |
| HoverView.Coordinator.HandleTwoFingerPan | Octinks/HoverView.swift:74-103 | the two-finger pan handler does exactly the gesture update |
| HoverView.Coordinator.CanvasViewDrawingDidChange | Octinks/HoverView.swift:138-169 | a drawing change spends the stroke ink and closes the gate when the bar runs low; the stroke rectangle is the last stroke's (unchanged with no strokes); the timer keys become exactly the valid indices, in-range timers are kept, and new ones are for their own index |
| HoverView.Coordinator.RemoveStroke | Octinks/HoverView.swift:172-182 | an out-of-range index changes nothing; otherwise exactly that stroke and its timer key go |
| HoverView.ScheduleTimers | Octinks/HoverView.swift:149-161 | the published rectangle ends as the last stroke's; every index without a timer gets one for itself, and existing timers stay |
| HoverView.DropExpiredTimers | Octinks/HoverView.swift:163-168 | the timers of indices past the last stroke are dropped, and every other timer stays |
| HoverView.RemovalShiftsTimers | Octinks/HoverView.swift:172-182 | timers keep the index they captured and are not re-keyed: removing the last stroke leaves exactly the valid indices; removing an earlier one leaves a timer keyed by the old last index, which no stroke has, leaves the stroke moved into the gap without a timer, and leaves every later timer naming a slot that now holds the next stroke |
| HoverView.ShowFrame | Octinks/GameSceneView.swift:190-195 | a frame's view-side stores consume the stroke and move the squid, and no waste changes |
| SceneSteps.CullLoopStep | Octinks/GameSceneView.swift:212-214 | one pass of the cull loop over the snapshot keeps the culled-prefix invariant |
| SceneSteps.CullOffScreen | Octinks/GameSceneView.swift:212-214 | the loop over a snapshot, removing from the list by id, leaves exactly the cull, using only objects of the list |
| SceneSteps.CullVisit | Octinks/GameSceneView.swift:213 | one pass keeps the culled-prefix invariant: the visited waste leaves by id exactly when it has fallen more than its width below the screen |
| SceneSteps.MoveAndQueue | Octinks/GameSceneView.swift:216-238 | the `compactMap` moves every waste once and queues exactly the frame's blocks; it reports a collision iff a moved waste hits the squid |
| SceneSteps.QueueStep | Octinks/GameSceneView.swift:216-238 | the blocks and the collision of one more moved waste extend those before it |
| SceneSteps.MoveAndTest | Octinks/GameSceneView.swift:217-236 | one pass moves the waste, queues the clear iff it hits the squid, and queues its removal iff the stroke covers it |
| SceneSteps.QueueErasures | Octinks/TutorialView.swift:238-248 | the lesson's `compactMap` queues exactly the removals of the covered wastes and moves nothing |
| SceneSteps.Drain | Octinks/GameSceneView.swift:223-235 | running the queued blocks in order leaves the value-level result; it reports whether a clear ran and whether a removal ran |
| SceneSteps.DrainStep | Octinks/GameSceneView.swift:223-235 | one more drained block, and whether a clear has run so far |
| SceneSteps.SpawnWastes | Octinks/GameSceneView.swift:150-152 | the spawn loop makes fresh objects whose states are exactly the wave |
| SceneSteps.RegenerateSquidInk | Octinks/GameSceneView.swift:162-166 | the three-branch regeneration leaves the ink `RegenInk` gives |
| SceneSteps.AppendMarkers | Octinks/GameSceneView.swift:157-159 | the marker loop appends exactly the two markers of its draws |
| GameScene.KeepNewest | Octinks/GameSceneView.swift:241-249 | the `removeFirst` loop leaves exactly the newest 50 markers, and a list of 50 or fewer unchanged |
| GameScene.GameSession.constructor | Octinks/GameSceneView.swift:14-39 | a new session has no wastes or markers, second 0, seven wastes per wave, base velocity 100 and an empty bar |
| GameScene.GameSession.FullBarEjects | Octinks.swiftpm/GameObjects.swift:20-23 | under the session invariant (ink below 1.2) the eject gate is exactly a full bar |
| GameScene.GameSession.Appear | Octinks/GameSceneView.swift:200-202 | the squid starts centred, 1.5 squid heights above the bottom |
| GameScene.GameSession.SecondTick | Octinks/GameSceneView.swift:146-185 | a running session elapses exactly one second; a wave second takes one in-range draw per waste of SPAWN_QUANTITY, a marker second two marker draws, and other seconds need no draws; a stopped one is unchanged |
| GameScene.GameSession.ElapseSecond | Octinks/GameSceneView.swift:147-184 | one second: when `seconds % 3 == 0` the wave of the given draws joins the list at the old base velocity, which then rises by 5; on a remainder of 1 two markers join; on even seconds the ink takes one regeneration step; the dead-octopus count rises by one; the wave size rises by one each minute; the invariant holds |
| GameScene.GameSession.SpawnWave | Octinks/GameSceneView.swift:149-154 | the wave is appended after the wastes already there, and the base velocity rises by 5 |
| GameScene.GameSession.AddWave | Octinks/GameSceneView.swift:150-153 | the new wastes join the list with fresh ids, and nothing else changes |
| GameScene.GameSession.SpawnMarkers | Octinks/GameSceneView.swift:156-160 | exactly two markers are appended, and no waste changes |
| GameScene.GameSession.RegenerateInk | Octinks/GameSceneView.swift:162-166 | one regeneration step with quantity 0.2, and no waste changes |
| GameScene.GameSession.TallySecond | Octinks/GameSceneView.swift:168-184 | the dead-octopus count rises by exactly one, and the wave size by one only on a full minute |
| GameScene.GameSession.RemoveExcesses | Octinks/GameSceneView.swift:241-249 | the markers become the newest 50, and nothing else changes |
| GameScene.GameSession.FrameTick | Octinks/GameSceneView.swift:186-199 | a running session does one frame as `FrameOutcome` states; a stopped one is unchanged |
| GameScene.GameSession.ElapseFrame | Octinks/GameSceneView.swift:186-199 | one frame: the wastes are the frame's result, a collision ends the game, stops the timers and clears the markers, otherwise the markers are capped; the stroke is consumed, the squid mirrors the hover and the tick advances |
| GameScene.GameSession.Conclude | Octinks/GameSceneView.swift:221-228 | a collision sets game over and stops the timers, and its clear empties the markers |
| GameScene.GameSession.UpdateMovement | Octinks/GameSceneView.swift:210-239 | cull, move-and-queue and drain leave exactly the frame's wastes, report a collision iff a moved on-screen waste hit the squid, and keep ids distinct |
| GameScene.GameSession.EjectInk | Octinks/GameSceneView.swift:105-111 | with the eject gate open the bar empties and the wastes go; otherwise ink and wastes stay; the markers, the squid's position, the clock, the score, the wave size, the base velocity, the hover tick and the id counters always stay |
| GameScene.GameSession.PencilSqueeze | Octinks/GameSceneView.swift:103-113 | the eject runs only when the squeeze ends and the gate is open; every other field of the session stays |
| GameScene.GameSession.DrawingChanged | Octinks/HoverView.swift:138-169 | a drawing change charges the session's squid, keeps its position and the session invariant, closes the gate when the bar runs low, publishes the last stroke's bounds, keeps the hover and the drawing switch, and resyncs the timer keys to the stroke indices |
| Tutorial.PageOf | Octinks/TutorialView.swift:21-34 | the counter shows a lesson page iff it is in 0..4, and otherwise the "Something went wrong" page |
| Tutorial.NextOnboardingStep | Octinks/TutorialView.swift:80-81 | from a page in 0..4 the step goes to (status + 1) mod 5, and from 4 or more to 0 |
| Tutorial.OnboardingCycles | Octinks/TutorialView.swift:80-81 | n presses move the counter n pages on, round the five pages, and never reach the fallback page |
| Tutorial.Onboarding.Advance | Octinks/TutorialView.swift:182-183 | the Start and every Next button step the counter, and from a valid page land on a valid page |
| Tutorial.LayoutFacts | Octinks/TutorialView.swift:403-407 | a lesson lays out one waste (eraser lesson) or three (eject lesson), each at its point in the top fifth, stationary, with a sprite of the set, a rotation in [0, 360) and consecutive fresh ids |
| Tutorial.LayoutNumbered | Octinks/TutorialView.swift:403-407 | a layout's ids are distinct and below the advanced id counter |
| Tutorial.SentinelKeepsLayout | Octinks/TutorialView.swift:240 | on a screen at least 3 points wide, a frame without a stroke erases nothing of a layout |
| Tutorial.PlaceWastes | Octinks/TutorialView.swift:403-407 | the literal arrays of the two lessons make fresh objects whose states are exactly the layout |
| Tutorial.WasteLesson.constructor | Octinks/TutorialView.swift:100-115 | a new lesson has no wastes, second 0, the Next button hidden and an empty bar |
| Tutorial.WasteLesson.PlaceLayout | Octinks/TutorialView.swift:200 | the layout replaces the wastes; the invariant holds |
| Tutorial.WasteLesson.Appear | Octinks/TutorialView.swift:400-408 | the squid starts centred above the bottom, the eject lesson's bar starts at 0.9, and the layout is laid out |
| Tutorial.WasteLesson.SecondTick | Octinks/TutorialView.swift:372-388 | one second: every fourth second the layout replaces the wastes, every second second the ink regenerates by 0.1, and the bar stays in [0, 1.1); a stopped lesson is unchanged |
| Tutorial.WasteLesson.UpdateWaste | Octinks/TutorialView.swift:236-250 | the erase-only pass leaves exactly the wastes the stroke misses, moves nothing, and reports whether any waste was covered |
| Tutorial.WasteLesson.FrameTick | Octinks/TutorialView.swift:209-219 | one frame erases the covered wastes; in the eraser lesson the Next button shows iff something was covered (or already showed); the stroke is consumed, the squid mirrors the hover, the tick advances |
| Tutorial.WasteLesson.Settle | Octinks/TutorialView.swift:243-244 | the stores that end a lesson frame keep the lesson invariant |
| Tutorial.WasteLesson.EjectInk | Octinks/TutorialView.swift:344-355 | in the eject lesson with the gate open, the wastes go, the bar is left at 0.5 and the Next button shows; otherwise nothing changes |
| Tutorial.WasteLesson.PencilSqueeze | Octinks/TutorialView.swift:321-332 | the eject runs only when the squeeze ends, in the eject lesson, with the gate open; the clock, the hover tick, the stopped flag and the id counter always stay |
| Tutorial.WasteLesson.DrawingChanged | Octinks/HoverView.swift:138-145 | a drawing change charges the lesson's squid, keeps its position and the ink inside [0, 1.1), closes the gate when the bar runs low, publishes the last stroke's bounds, keeps the hover and the drawing switch, and resyncs the timer keys |
| Tutorial.WasteLesson.Disappear | Octinks/TutorialView.swift:228-231 | leaving the page stops both timers |
| Tutorial.MovementLesson.constructor | Octinks/TutorialView.swift:437-446 | a new movement lesson has the Next button hidden and no hover |
| Tutorial.MovementLesson.Appear | Octinks/TutorialView.swift:521-526 | the squid starts centred, 1.5 squid heights above the bottom |
| Tutorial.MovementLesson.FrameTick | Octinks/TutorialView.swift:512-520 | one frame consumes the stroke, mirrors the hover onto the squid and advances the tick; a stopped lesson is unchanged |
| Tutorial.MovementLesson.Gesture | Octinks/TutorialView.swift:527-529 | after a hover or pan, the Next button shows iff the published position changed (or it already showed); the gate opens at ink ≥ 0.1 and drawing is enabled iff it is open; strokes, the stroke rectangle, the timers and the squid stay |
| Tutorial.MovementLesson.Disappear | Octinks/TutorialView.swift:533-535 | leaving the page stops the frame timer |

## Left out

- Views, layout, images, animations, the ink bar's drawing, the death screen
  and the main menu are presentation. The tutorial's `ObjectiveView` is only
  a link into the game and has no state, so it is left out.
- The score pulse (`isPulsing` and its `asyncAfter`) is a wall-clock
  animation.
- Timer scheduling and the main queue are concurrency plumbing. Handlers are
  whole steps, and the blocks they queue run at the end of the same step.
- Gesture recognisers, PencilKit, the shake detector and the motion manager
  are device input; their outputs are parameters. Setting
  `canvasView.drawing` in `removeStroke` makes PencilKit call
  `canvasViewDrawingDidChange` again, charging ink a second time. The model
  does not include this re-entry, because it is framework behaviour.
- Floating-point rounding is not modelled (reals are exact). For example, in
  IEEE arithmetic 0.8 + 0.2 can fall just below 1 and keep the eject gate
  shut.
- Edge-touching or empty rectangles under `CGRect.intersects` are not
  modelled.
- The tutorial's finger-gesture eject is passed to `HoverView` through an
  `inkEjection:` argument that the `HoverView` struct in
  Octinks/HoverView.swift:13-17 does not declare. Only the eject rule is
  modelled: `Tutorial.WasteLesson.EjectInk` is the closure, and nothing in
  the model calls it on a gesture. The eraser lesson passes an empty
  closure and has no squeeze handler, so its `EjectInk` changes nothing.
- The disclaimer page is static text with a Start button; only the button's
  step of the page counter is modelled.
- The `bufferX` fallback of the frame handlers (half the width in the game,
  half the height in the tutorial) is never observable: a squid without a
  position stays without one, because `squid.position?.x = ...` writes
  nothing then.
- GameScene.GameSession.ElapseFrame: the source sets the stroke and the
  squid before the queued blocks run, and `gameOver` and the timers inside
  the walk; the model makes these stores at the end of the frame. Nothing
  reads them in between, so the end state is the same.
- Tutorial.WasteLesson.FrameTick: the contract states the wastes' states
  after the frame, but not that the remaining objects are objects of the old
  list. (`Tutorial.WasteLesson.UpdateWaste` does state it.)
- Tutorial.MovementLesson.Appear: the source sets the starting position in
  a main-queue block, after layout; the model sets it at once.
- GameScene.KeepNewest and GameScene.GameSession.RemoveExcesses work on a
  copy of the list and store it once; the source removes in place. The
  result is the same.
- Randomness: draws are parameters, and each call needs in-range draws for the spawns it makes.
- Timers: cancelling sets `stopped`. A cancelled timer's handler is not
  called again, and the handlers on a stopped scene are no-ops.
- A UUID is a fresh natural number from a per-scene counter.
- Integer widths: the counters (`seconds`, `deadOctopuses`, the wave size)
  are unbounded. The source's 64-bit `Int` would take longer than any game
  lasts to overflow.
