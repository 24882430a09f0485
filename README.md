# Falling hearts: the 2D physics core

This project models the physics engine behind the falling-hearts page
background (`www.js`). Hearts are soft discs that live in screen pixels:
- Each has a position, a velocity, a depth layer, a collision radius, a spin, an activity flag and, once created, a mesh.
- Every frame, each active heart gains gravity and pushes against its overlapping neighbours. Its speed is then limited, it moves, it is clamped into the screen widened by a margin, and its velocity is damped.
- Finally its mesh is placed at the heart's position mapped into the camera's visible world rectangle.
- A uniform grid with cells one collision diameter wide supplies the neighbours. The manager rebuilds that grid on every collision frame, and a collision frame is every `collisionCheckInterval`-th frame after the animation starts.

The model has these modules:
- `Settings`: the `hearts` configuration block, the viewport, and the pixel-to-world mapping.
- `Grid`: the spatial grid, a class whose buckets are a map from cell to heart ids.
- `Hearts`: heart records and every physics rule as a function on values.
- `HeartUpdate`: the heart methods as in-place updates of an `array<Heart>`, each proved equal to its function.
- `Frames`: the manager's passes and its frame as functions on the whole scene.
- `Manager`: the `HeartManager` class, whose methods are proved to compute those functions.

Object identity (`other === this`) becomes index equality: the grid stores indices into the manager's heart array.

The update does not keep hearts under `maxSpeed`:
- `Heart.update` calls `limitSpeed` (`www.js:333`) and then multiplies both velocity components by `CONFIG.hearts.damping` (`www.js:337-338`).
- The shipped damping is 2.98 (`www.js:73`), so a heart leaves its own update at up to 2.98 times `maxSpeed`. Hearts stepped after it in the same frame can then push it faster still, through the collision response (`www.js:274-283`).
- The model proves the limit right after `limitSpeed`, in `SpeedLimitHolds`, and proves that damping above one speeds a moving heart up, in `DampingSpeedsUp`. It claims no speed bound after a full update.

## Model

| member | source | states |
|---|---|---|
| Settings.ShippedIsConsistent | www.js:68-86 | In the shipped configuration, `maxSpeedSquared` is the square of `maxSpeed`. The heart radius is 220 and the cell size 440. There are 20 hearts on three layers, collisions are checked every frame, and damping exceeds one. |
| Hearts.ShippedLimitsSpeed | www.js:68-86 | With the shipped configuration on any viewport, the clamping box is non-empty. A limited heart has squared speed at most 25², and a heart already within that is not touched by `limitSpeed`. |
| Settings.WorldMapsScreenOntoView | www.js:319-321 | Under `WorldX` and `WorldY`, the screen edges map onto the visible world rectangle centred at the origin. The left and right edges go to -visW/2 and visW/2. The top and bottom edges go to +visH/2 and -visH/2, since world y grows upwards. |
| Settings.WorldMapIsMonotone | www.js:320-321 | Moving right on screen moves right in the world; moving down on screen moves down. |
| Settings.WorldMapRoundTrip | www.js:320-321 | Mapping a pixel position to world coordinates and back returns the pixel position. |
| Grid.HashBounds | www.js:184-188 | A point, measured in cell units, lies in the half-open unit square `[c, c+1)` of the cell `Hash` gives it, on both axes. This is the floor semantics of `_hash`. |
| Grid.CloseMeansAdjacent | www.js:184-188 | Two points less than one cell size apart on each axis hash to cells that differ by at most one on each axis. |
| Grid.Add | www.js:190-196 | Inserting appends the id to the end of its cell's bucket, creating the bucket when it is missing. Every other bucket is left alone. |
| Grid.SpatialGrid.constructor | www.js:175-178 | A new grid has the given cell size and no buckets. |
| Grid.SpatialGrid.Clear | www.js:180-182 | After `clear` the grid holds no bucket. |
| Grid.SpatialGrid.Insert | www.js:190-196 | The buckets become `Add` of the old buckets, the cell of (x, y) and the id. |
| Grid.NearbyMembers | www.js:198-214 | An id is in `Nearby`, the query result for cell c, if and only if it is in the bucket of a cell adjacent to or equal to c. |
| Grid.SpatialGrid.GetNearby | www.js:198-214 | The loop returns the nine buckets of the 3x3 block, column by column. Its membership is exactly that of `NearbyMembers`. |
| Grid.NearbyWithin | www.js:198-214 | On a grid whose ids are all below n, a query returns only ids below n. |
| Frames.GridHoldsActiveHearts | www.js:546-553 | After the rebuild `BuildCells`, heart k is in the bucket of cell c if and only if k is active and its position hashes to c. Each bucket lists its ids in strictly increasing array order, and no bucket is empty. |
| Frames.CollisionCandidatesFound | www.js:198-214 | Take heart i and an active heart j of the same radius, with j overlapping i (squared distance below the squared contact distance) at the rebuild positions. Then j is in the query result at i's position on the rebuilt grid, so the broad phase misses no colliding pair. |
| Frames.Neighbours | www.js:557-559 | The neighbour list names only hearts of the scene, and it is empty when the frame does not check collisions. |
| Frames.UpdateHearts | www.js:555-562 | The pass over the hearts keeps their number. Each heart is stepped on the scene the earlier steps left. |
| Frames.UpdateHeartsKeeps | www.js:555-562 | The pass leaves an inactive heart untouched. A heart not yet stepped has only had its velocity changed. A stepped heart keeps its activity and its layer. |
| Frames.UpdateHeartsContain | www.js:555-562 | If the clamping box is non-empty, every stepped active heart ends inside it and stays there for the rest of the pass. |
| Frames.QuietFrameIsSolo | www.js:555-562 | Without collision checks, the pass moves every heart on its own, as gravity followed by `Advance`. |
| Frames.Frame | www.js:564-577 | Before the animation starts, a frame changes nothing. After it has started, the counter goes up by one and the animation stays started. The grid names only hearts of the scene. |
| Frames.FrameKinds | www.js:564-577 | When (frameCount+1) % interval == 0, the frame rebuilds the grid from the hearts as they stood and steps every heart with its grid neighbours. On any other frame the grid is kept and every heart moves alone. |
| Frames.CollisionFrameCadence | www.js:567-569 | `CollisionFrame` checks on every positive multiple of a positive interval and on no count strictly between zero and the interval. With the shipped interval of one it checks on every frame. An interval of zero never checks, as JavaScript's NaN remainder equals nothing. |
| Frames.FrameKeepsHeartsInside | www.js:564-577 | A frame leaves inactive hearts untouched. Once the animation has started, every active heart ends the frame inside the clamping box. |
| Hearts.NewHeart | www.js:218-242 | A new heart sits on one of the configured layers and has the configured radius. It has no vertical velocity, is inactive and has no mesh. Its spin lies in [-0.0025, 0.0025). |
| Hearts.SpawnLayer | www.js:227-229 | The layer index drawn is below the number of layers. |
| Hearts.NewHeartPlacement | www.js:224-236 | A new heart starts within the screen width. It starts in a band of height `height * spawnRangeY` above `-spawnOffsetY`. Its sideways velocity lies within half of `initialVelocityX` either way. |
| Hearts.Collide | www.js:261-284 | `handleCollision` changes only the two velocities and conserves the pair's momentum on both axes. |
| Hearts.Separate | www.js:263-283 | The response along the normal (dx, dy)/distance changes only velocities and conserves momentum. |
| Hearts.Respond | www.js:266-283 | The bounce followed by the separation push changes only velocities and conserves momentum. |
| Hearts.Bounce | www.js:270-276 | A pair that is not approaching along the normal gets no bounce impulse. |
| Hearts.BounceEffect | www.js:270-276 | Along a unit normal, the bounce turns an approaching pair's relative speed rs into rs - 2·bounce·rs, so a bounce of one reverses it. It leaves a separating pair's alone and keeps the relative speed across the normal. |
| Hearts.CollisionNormalIsUnit | www.js:262-264 | With a true square root, the collision normal has length one. |
| Hearts.ResponseAlongNormal | www.js:266-283 | Along the unit normal, a collision turns an approaching relative speed rs into rs - 2·bounce·rs and keeps a separating one. Either way it adds twice the separation force. The relative speed across the normal is kept. |
| Hearts.PairStep | www.js:245-257 | Heart i against neighbour j leaves the scene alone unless j touches i. Touching means another, active heart on a layer at most one unit away, with squared distance in (1, minDist²). Otherwise only the two velocities change, and their sum is kept. |
| Hearts.TouchingIsSymmetric | www.js:246-255 | Between two active hearts, the `continue` guards and the distance test of `applyRepulsion` (`Touching`) are symmetric: i is pushed by j exactly when j is pushed by i. |
| Hearts.Hit | www.js:255-256 | A collision changes only hearts i and j, only in velocity, and keeps their total momentum. |
| Hearts.Repulse | www.js:244-259 | The repulsion pass changes only velocities, and never those of inactive neighbours. |
| Hearts.PairStepConservesMomentum | www.js:245-257 | One pair step keeps the total momentum of the scene. |
| Hearts.RepulsionConservesMomentum | www.js:244-259 | A heart's whole repulsion pass keeps the total momentum of the scene. |
| Hearts.NoTouchNoChange | www.js:244-259 | A neighbour list in which no heart touches heart i leaves the scene unchanged. |
| Hearts.SpeedLimited | www.js:306-314 | `limitSpeed` changes only the velocity, and keeps a velocity already within the limit. |
| Hearts.SpeedLimitHolds | www.js:306-314 | When `maxSpeedSquared` is the square of `maxSpeed`, the limited speed is within the limit. A velocity over the limit ends exactly on it, scaled in both components by one factor in [0, 1). |
| Hearts.StepWithinMaxSpeed | www.js:333-335 | After the limit, `Moved` displaces the heart by exactly its velocity and changes nothing else, so the Euler step moves it at most `maxSpeed`. The boundary clamp that follows can move it farther. |
| Hearts.Bounded | www.js:286-304 | `applyBoundaries` changes only position and velocity. A coordinate already in range keeps both its value and its velocity component. If the box is non-empty, the result is inside it. |
| Hearts.BoundaryBounce | www.js:286-304 | A coordinate past the near edge is put on that edge and moves back inward. One past the far edge is put on that edge and moves back the other way. Either way its speed along that axis becomes bounce times the old speed. |
| Hearts.MeshUpdated | www.js:316-326 | `updateMesh` changes only the mesh, does nothing without one, and keeps the mesh's visibility. |
| Hearts.MeshTracksHeart | www.js:319-325 | Mapping the updated mesh position back to pixels gives the heart's position. The mesh depth is the heart's layer, and each update turns the mesh about y by the heart's spin. |
| Hearts.MeshOnScreen | www.js:319-323 | A heart inside the screen has its mesh inside the visible world rectangle. |
| Hearts.DampingSpeedsUp | www.js:337-338 | Damping (`Damped`) multiplies the squared speed by the damping factor squared. With the shipped factor above one, a moving heart speeds up. |
| Hearts.Advance | www.js:333-339 | After repulsion, the update keeps layer, radius, spin, activity and whether a mesh exists. If the box is non-empty, the heart ends inside it, because damping touches only the velocity. |
| Hearts.Step | www.js:328-340 | An inactive heart changes nothing. Other hearts change only in velocity, and only active ones. The updated heart keeps its layer, radius and activity and, when active, ends inside the clamping box. |
| Hearts.Solo | www.js:328-340 | A heart updated with no neighbours is unchanged when inactive and ends inside the box when active. |
| Hearts.StepAlone | www.js:328-340 | When no neighbour touches heart i, the update changes heart i alone, exactly as gravity followed by `Advance`. |
| HeartUpdate.HandleCollision | www.js:261-284 | The in-place collision writes exactly `Collide`'s pair into slots i and j. |
| HeartUpdate.CheckPair | www.js:245-257 | One pass of the loop leaves the array equal to `PairStep` of its old contents. |
| HeartUpdate.ApplyRepulsion | www.js:244-259 | The loop leaves the array equal to `Repulse` of its old contents over the whole neighbour list. |
| HeartUpdate.LimitSpeed | www.js:306-314 | Heart i becomes `SpeedLimited` of itself; nothing else changes. |
| HeartUpdate.ApplyBoundaries | www.js:286-304 | Heart i becomes `Bounded` of itself; nothing else changes. |
| HeartUpdate.UpdateMesh | www.js:316-326 | Heart i becomes `MeshUpdated` of itself; nothing else changes. |
| HeartUpdate.Move | www.js:333-336 | Heart i is speed-limited, moved by its velocity and clamped. |
| HeartUpdate.DampAndShow | www.js:337-339 | Heart i is damped and its mesh updated. |
| HeartUpdate.Integrate | www.js:333-339 | Heart i becomes `Advance` of itself. |
| HeartUpdate.Update | www.js:328-340 | The array becomes `Step` of its old contents for heart i and its neighbour list. |
| Manager.NewHearts | www.js:485-489 | The created hearts, one per set of draws, start inactive and without a mesh. Each is at rest vertically, on a configured layer, with the configured radius. |
| Manager.Append | www.js:485-489 | The new array is the old hearts followed by the created ones. |
| Manager.WithMeshes | www.js:514-529 | Heart k gets the k-th mesh, made invisible as at `www.js:524`, and is otherwise unchanged. Every heart then holds a hidden mesh. |
| Manager.MeshesThenActivate | www.js:514-542 | A mesh handed out hidden is shown by the activation, which also brings its heart into the simulation. |
| Manager.Activated | www.js:537-542 | A heart with a mesh becomes active and visible. A heart without one is unchanged. Nothing else changes. |
| Manager.HeartManager.constructor | www.js:473-483 | A new manager has no hearts and an empty grid with the collision-diameter cell size. Its frame counter is at zero and it has not started. |
| Manager.HeartManager.CreateHearts | www.js:485-489 | The hearts become the old ones followed by `NewHearts`; the rest of the state is unchanged. |
| Manager.HeartManager.CreateMeshes | www.js:491-530 | The hearts become `WithMeshes` of the old ones, so every heart holds a hidden mesh; the rest of the state is unchanged. |
| Manager.HeartManager.StartAnimation | www.js:532-535 | The animation starts with the counter at zero; the hearts and grid are unchanged. |
| Manager.HeartManager.Activate | www.js:537-542 | Heart i becomes `Activated` of itself; the rest of the state is unchanged. |
| Manager.HeartManager.UpdateSpatialGrid | www.js:546-553 | The grid becomes `BuildCells` of the hearts; everything else is unchanged. |
| Manager.HeartManager.NearbyOf | www.js:557-559 | Heart k's neighbour list is `Neighbours` at its current position. |
| Manager.HeartManager.UpdateHearts | www.js:555-562 | The hearts become `Frames.UpdateHearts` of the old ones, with the current grid. |
| Manager.HeartManager.Update | www.js:564-577 | The manager's state becomes `Frame` of its old state. |

## Left out

- Math.sqrt is a parameter of the environment, `Env.sqrt`, constrained only where it matters: for d > 0 it returns a positive root whose square is d.
- Env.Valid: requires a positive viewport width and height for every physics member, although only the mesh mapping divides by them (`www.js:320-321`). A zero-size window (`window.innerWidth` of 0, `www.js:147`) is therefore outside the model.
- Floating point: every quantity is an exact real, so rounding, NaN and Infinity are not modelled. A zero collision interval is treated as never checking, which matches JavaScript's NaN comparison.
- Grid.SpatialGrid.constructor: requires a positive cell size. The source would build Infinity or NaN keys from a zero one; the shipped size is 440.
- Frames.CollisionCandidatesFound: covers positions at rebuild time only. Hearts stepped earlier in the same frame have already moved when later hearts query the grid.
- Hearts.Step: makes no claim that speed is at most `maxSpeed` after an update, because damping runs after the limit (see above).
- The camera: `calculateWorldSpace` (`www.js:159-166`) uses `Math.tan`. Its results visW and visH are inputs, and the viewport is constant (window resize is not modelled).
- Random draws are parameters: `Draws` for a new heart, and the meshes handed to `CreateMeshes`.
- createMeshes: model scaling, the random initial rotation and the shadow setup are not modelled; only the hand-over of a hidden mesh is.
- startAnimation: the `setTimeout` staging is not modelled. `Activate` is the callback, and when it runs is left to the caller.
- The page preloader, SceneSetup (renderer, camera, lights, textures, materials), model loading, resize handling and the render loop are rendering and I/O, not physics.
- The second script `hearts.js` is not part of this model.
- The mesh's z rotation is never written by the physics.
