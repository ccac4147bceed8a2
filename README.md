# Space: bodies, frames and hyperspace in Pioneer

This project models the simulation bookkeeping of Pioneer's `namespace Space`
(`src/Space.cpp`) in Dafny, and proves properties of that model.

The model covers:

- the global list of bodies and the list of corpses waiting to be deleted;
- the tree of reference frames, rooted at the "System" frame;
- the hyperspace state: the pending destination and the animation counter.

The namespace's globals are the fields of one object, the class `Space.Space`.
Each operation that changes them in place is a method of that class, with a
loop wherever the source loops. The methods are proved against pure functions
of the module `Registry`. Those functions act on `World`, the registry part of
the state: player, bodies, corpses, dead set, object store, frame arena and the
log of death notices. The lemmas proved about those functions therefore hold
for the methods too.

Frames live in an arena: a sequence indexed by `FrameId`, with the root frame
at index 0. Each frame has a parent link and a list of children. A child is
always appended after its parent, so every child's index is larger than its
parent's, and the recursive searches terminate.

System-body descriptors (`SBody`) are values: a kind, a name, an id, a radius,
the largest child orbit, a rotation period and their children. The frame
geometry (`IsLocalPosInFrame`, leaving and child transforms, stasis velocity) is
a record of functions passed in as a parameter. Vectors are triples of reals.

Modules:

- `Common`: Option, vectors and their products.
- `Frames`: the arena; `find_frame_with_sbody` and its pre-order specification.
- `Bodies`: list filtering and the death-notice broadcast.
- `Registry`: the body registry as functions on `World`.
- `Systems`: descriptors and the frame shapes `MakeFrameFor` builds.
- `Shapes`: the per-kind frame-shape lemmas.
- `Migration`: `UpdateFramesOfReference`.
- `Collision`: the `OnCollision` veto and the `hitCallback` response.
- `ZSort`: the render order.
- `Space`: the class with the imperative operations.

## Model

| member | source | states |
|---|---|---|
| Space.Space.Init | src/Space.cpp:33-37 | starts with the root frame "System" of radius FLT_MAX as the only frame, no bodies, no corpses, no pending jump and the player enabled |
| Registry.Initial | src/Space.cpp:33-37 | the initial registry is valid, its lists are empty and its arena is just the root frame |
| Space.Space.AddBody | src/Space.cpp:305-308 | the new registry is `Registry.Add` of the old one; nothing in the hyperspace state changes |
| Registry.AddValid | src/Space.cpp:305-308 | appending keeps the registry valid; the body is now last, the old list is an unchanged prefix, and the body occurs once more than before |
| Space.Space.RemoveBody | src/Space.cpp:310-314 | the new registry is `Registry.Remove` of the old one |
| Registry.RemoveProperties | src/Space.cpp:310-314 | after removal no occurrence of the body is left, every other body keeps its membership and its number of copies, the list is an order-preserving subsequence of the old one, the body's frame is cleared and no other object changes |
| Space.Space.KillBody | src/Space.cpp:316-322 | the new registry is `Registry.Kill` of the old one |
| Registry.KillValid | src/Space.cpp:316-322 | killing keeps the registry valid; the body is marked dead, queued as a corpse unless it is the player, and the player is never queued |
| Registry.KillIdempotent | src/Space.cpp:318-321 | killing twice is the same as killing once, and a kill adds at most this one body to the end of the corpse list |
| Registry.PlayerNeverQueued | src/Space.cpp:319-320 | killing the player marks it dead and leaves the corpse list as it was |
| Space.Space.NotifyAll | src/Space.cpp:597-598 | every listed body, in list order, is sent one death notice about the corpse; nothing else changes |
| Space.Space.PruneOne | src/Space.cpp:596-601 | one turn of the corpse loop takes the state from the first k corpses pruned to the first k+1 |
| Space.Space.PruneCorpses | src/Space.cpp:594-603 | the new registry is `Registry.Prune` of the old one and stays valid |
| Space.Space.ForgetCorpses | src/Space.cpp:602 | once all corpses are handled, clearing the corpse list gives exactly `Registry.Prune` of the starting state |
| Registry.PruneValid | src/Space.cpp:594-603 | after pruning the corpse list is empty, no corpse is listed or stored, the list is an order-preserving subsequence of the old one, every non-corpse stays listed with as many copies as before, no listed body other than the player is dead, and other objects are unchanged |
| Registry.PruneNotices | src/Space.cpp:596-599 | every notice pruning sends goes to a listed body and is about a corpse; every listed body not yet pruned, the corpse itself included, hears of each corpse; with each corpse queued once, a body hears of a corpse exactly when it was listed and not pruned before it, and a body listed once hears of it exactly once |
| Bodies.Keep | src/Space.cpp:599 | a body is kept exactly when it was in the list and is not removed; the result is no longer than the input |
| Bodies.KeepCounts | src/Space.cpp:599 | `std::list::remove` drops every copy of a removed body and keeps every copy of every other body |
| Bodies.KeepIsSubsequence | src/Space.cpp:599 | `std::list::remove` keeps the survivors in their original order |
| Bodies.KeepKeep | src/Space.cpp:596-601 | removing one set and then another is removing their union |
| Bodies.SurvivorsAreKept | src/Space.cpp:596-601 | removing the corpses one at a time leaves exactly the bodies not among them, in order |
| Bodies.KeepNothing | src/Space.cpp:599 | removing nothing leaves the list as it was |
| Bodies.NoticesAreAboutCorpses | src/Space.cpp:596-598 | every death notice goes to a listed body and names a corpse |
| Bodies.NoticeDelivered | src/Space.cpp:596-598 | a body still listed when a corpse is processed receives that corpse's notice |
| Bodies.NoNoticeAfterRemoval | src/Space.cpp:596-599 | with each corpse queued once, a corpse removed from the list earlier receives no notice about a later corpse |
| Bodies.NoticeExactlyOnce | src/Space.cpp:596-599 | with no body listed twice and each corpse queued once, a body not removed before a corpse receives exactly one notice of it |
| Space.Space.Clear | src/Space.cpp:39-54 | the new registry is `Registry.ClearAll` of the old one and stays valid |
| Space.Space.UnframeAndKill | src/Space.cpp:41-46 | the loop over the list unframes every body and kills every one but the player, as `Registry.ClearLoop` says |
| Space.Space.ClearOne | src/Space.cpp:42-45 | one turn of the clearing loop extends `ClearLoop` by one body |
| Space.Space.Unframe | src/Space.cpp:42 | the body's frame is cleared and nothing else changes |
| Space.Space.ResetToRoot | src/Space.cpp:49-53 | the player is put in the root frame and the root loses its children, astro body and descriptor |
| Registry.UnframeValid | src/Space.cpp:42 | clearing a body's frame keeps the registry valid |
| Registry.ClearLoop | src/Space.cpp:41-46 | the loop keeps the set of stored objects, the player, the list, the frames and the notices |
| Registry.ClearLoopValid | src/Space.cpp:41-46 | the clearing loop keeps the registry valid |
| Registry.ClearLoopKills | src/Space.cpp:43-45 | after the loop, the dead bodies are exactly those dead before plus every listed body except the player; new corpses come only from the list |
| Registry.ClearLoopFrames | src/Space.cpp:42 | the loop unframes exactly the listed bodies and leaves every other object unchanged |
| Registry.ClearEmptiesList | src/Space.cpp:39-54 | after `Clear` the only body that can be listed is the player; it stays listed exactly when it was listed before, with as many copies; every other listed body is deleted |
| Registry.ClearValid | src/Space.cpp:39-54 | `Clear` keeps the registry valid and leaves no corpse |
| Registry.ResetValid | src/Space.cpp:49-53 | resetting to the root frame keeps the registry valid |
| Registry.ClearResetsFrames | src/Space.cpp:49-53 | after `Clear` the arena is the root alone, with no children, no astro body and no descriptor; the player's frame is the root; unlisted live objects survive |
| Space.ClearedCarriesNothing | src/Space.cpp:50-53 | after `Clear` no frame carries a descriptor |
| Space.Space.RadiusDamage | src/Space.cpp:56-66 | the damage calls made are exactly `DamageCalls` of the listed bodies, in list order |
| Space.DamageOnlyInRange | src/Space.cpp:58-64 | every damage call goes to a listed body in frame `f` strictly closer than `radius`, from the attacker, with the linear falloff |
| Space.DamageReachesAll | src/Space.cpp:58-64 | every listed body in frame `f` strictly closer than `radius` is damaged with the falloff for its distance |
| Space.FalloffBounds | src/Space.cpp:62-63 | for positive damage the falloff lies in (0, kgDamage], is kgDamage at distance 0, and shrinks as the distance grows |
| Frames.AddFrame | src/Space.cpp:184 | `new Frame(parent, name)` appends a childless frame, adds it as the parent's last child, changes no other frame and keeps the arena well formed |
| Frames.FindFrameWithSBody | src/Space.cpp:133-145 | a frame found carries the descriptor, has an index not below the frame searched, and is listed in that frame's subtree pre-order |
| Frames.FindInChildren | src/Space.cpp:137-142 | a frame found among the children's subtrees carries the descriptor and is listed in the pre-order of the remaining children's subtrees |
| Frames.PreOrder | src/Space.cpp:133-145 | the depth-first pre-order listing of a subtree starts at its root, and every frame it lists has an index not below the root's |
| Frames.FirstCarrying | src/Space.cpp:133-145 | the reference search: absent exactly when no listed frame carries the descriptor, otherwise the first listed frame that does |
| Frames.FindIsFirstInPreOrder | src/Space.cpp:133-145 | the recursive search returns the first frame in depth-first pre-order that carries the descriptor |
| Frames.FindInChildrenIsFirst | src/Space.cpp:137-142 | the child loop returns the first carrier in the pre-order of the remaining children's subtrees |
| Frames.ReachableFromRoot | src/Space.cpp:147-150 | every frame of the arena lies in the root's subtree |
| Frames.GetFrameWithSBodyComplete | src/Space.cpp:147-150 | the search from the root returns nothing exactly when no frame carries the descriptor |
| Space.FoundIffCarried | src/Space.cpp:640-642 | the search from the root finds a descriptor exactly when some frame carries it |
| Systems.FramePair | src/Space.cpp:199-207 | builds the non-rotating frame carrying the descriptor, with one rotating child holding the body, and leaves the arena well formed |
| Systems.MakeFrames | src/Space.cpp:171-270 | the frame `MakeFrameFor` returns and the frame its body goes to both exist in the new, well-formed arena, which only grows |
| Shapes.RootShape | src/Space.cpp:176-181 | for the system's root descriptor no frame is made: `f` itself is returned and gets the descriptor and the astro body, which goes into `f` |
| Shapes.SingleFrameShape | src/Space.cpp:183-219 | a gravpoint or a star gets one new child frame of `f` carrying the descriptor and the body, of radius 1.1 times the largest child orbit; only a star's body is placed in it |
| Shapes.PlanetShape | src/Space.cpp:193-210 | a planet gets a non-rotating frame carrying the descriptor, of radius 1.1 times the largest child orbit or 10 planet radii when that is 0, with exactly one rotating child of radius 1.1 times the planet's radius that holds the body; the non-rotating frame is returned |
| Shapes.OrbitalStarportShape | src/Space.cpp:220-233 | an orbital starport gets a non-rotating frame of radius 1000000 carrying the descriptor and a rotating child of radius 5000 with no astro body, where the station goes |
| Shapes.SurfaceStarportShape | src/Space.cpp:234-240 | a surface starport makes no frame: it goes into, and returns, the first child of `f` |
| Shapes.MakeFramesGrows | src/Space.cpp:171-270 | every kind only appends frames, changes no old frame except the one that takes the descriptor, and adds exactly the descriptor's own id to the carried set |
| Space.PlanetReady | src/Space.cpp:238-240 | after a planet's frames are built, the first child of the frame returned holds a planet, as the surface starport code asserts |
| Space.Space.MakeFrameFor | src/Space.cpp:171-270 | returns the frame `MakeFrames` chooses, and the arena and the body's frame and position become what `MakeFrames` says |
| Space.Space.MakeBody | src/Space.cpp:274-291 | a gravpoint gets no body; any other descriptor gets a fresh star, planet or station object of the matching variant, placed nowhere |
| Space.Space.NewBody | src/Space.cpp:278-289 | creates a fresh object id with the given variant and name, not yet listed |
| Space.Space.MakeOwn | src/Space.cpp:274-292 | the descriptor's own body is made, listed and framed; the state has grown by exactly the descriptor's own frames and body |
| Space.Space.GenChild | src/Space.cpp:294-296 | one turn of the child loop extends the growth by the child's whole subtree |
| Space.GenLoopStep | src/Space.cpp:294-296 | the loop invariant of `GenBody` is carried from one child to the next |
| Space.Space.GenBody | src/Space.cpp:272-297 | the new frames carry exactly the descriptor subtree's ids, one body is listed per non-gravpoint descriptor, old frames and objects are kept, and new objects have fresh ids |
| Space.Space.BuildSystem | src/Space.cpp:299-303 | building the system from the root frame grows the state by the whole system |
| Space.BuiltCarries | src/Space.cpp:299-303 | built over a cleared arena, the frames carry exactly the system's descriptors |
| Migration.Leave | src/Space.cpp:331-356 | falling out of a frame keeps the body in an existing frame and keeps its variant and name |
| Migration.FirstEntered | src/Space.cpp:359-380 | the child chosen is the first, in child order, whose transformed position is inside it; no earlier child contains the body |
| Migration.Enter | src/Space.cpp:358-380 | entering keeps the body in an existing frame and keeps its variant and name |
| Migration.Migrate | src/Space.cpp:331-380 | one body's migration keeps it in an existing frame with its variant and name |
| Migration.MigrateDestinations | src/Space.cpp:331-380 | a body inside its frame does not leave it; a body in the root never leaves; a body that stays keeps its position; it ends up in the frame it was in after leaving, or in that frame's first child that contains it, and it does enter a child whenever some child contains it |
| Migration.MigrateLevel | src/Space.cpp:324-382 | in one tick a body's depth in the frame tree changes by at most one |
| Migration.MigrateAll | src/Space.cpp:326-329 | the loop keeps the object store's keys, leaves unlisted bodies and bodies without FLAG_CAN_MOVE_FRAME untouched, and keeps every body located |
| Migration.MigrateAllStep | src/Space.cpp:326-381 | one turn of the loop migrates the next listed body from the state the earlier turns left |
| Migration.MigrateAllOnce | src/Space.cpp:326-381 | a body listed once and allowed to move ends up exactly where `Migrate` takes it |
| Space.MigrateValid | src/Space.cpp:324-382 | migration keeps the registry valid |
| Space.Space.EnterChild | src/Space.cpp:358-380 | the loop over the children computes `Enter` |
| Space.Space.MigrateOne | src/Space.cpp:327-380 | one turn of the outer loop extends `MigrateAll` by one listed body |
| Space.Space.UpdateFramesOfReference | src/Space.cpp:324-382 | only the object store changes, and it becomes `MigrateAll` over the listed bodies |
| Collision.OnCollision | src/Space.cpp:384-396 | the collision proceeds exactly when neither participant that is a body vetoes it; the first is asked when it is a body, and the second only when the first did not veto |
| Collision.RespondDynamic | src/Space.cpp:410-446 | the two-dynamic response changes only velocities, asks no hook or exactly the hooks `OnCollision` asks, and changes nothing for a separating or vetoed contact |
| Collision.RespondStatic | src/Space.cpp:447-484 | the one-dynamic response along a given normal never touches the static participant, changes only the mover's velocities, and changes nothing when the mover separates along that normal or the contact is vetoed |
| Collision.HitCallback | src/Space.cpp:398-485 | corrected: `hitCallback` measuring a lone mover along `hitNormal`; static participants are untouched, only velocities change, and the hooks asked are none or `OnCollision`'s |
| Collision.HitCallbackAsWritten | src/Space.cpp:398-485 | as written: `hitCallback` measuring a lone mover along `c->normal`; static participants are untouched, only velocities change, and the hooks asked are none or `OnCollision`'s |
| Collision.SeparatingContactIgnoredAsWritten | src/Space.cpp:428-472 | as written: a contact whose tested speed (along `c->normal`) is positive changes nothing and asks no one |
| Collision.VetoedContactIgnoredAsWritten | src/Space.cpp:428-473 | as written: a contact that is not separating by that test and that a body vetoes changes no velocity |
| Collision.AcceptedContactRespondsAsWritten | src/Space.cpp:428-473 | as written: a contact that is not separating by that test and that both sides accept asks every body's hook |
| Collision.DynamicDenominator | src/Space.cpp:432-440 | the impulse denominator of two dynamic bodies is positive |
| Collision.StaticDenominator | src/Space.cpp:474-479 | the impulse denominator against a static object is positive |
| Collision.AngularTermNonNegative | src/Space.cpp:437-438 | the rotational term of the denominator is never negative |
| Collision.SeparatingContactIgnored | src/Space.cpp:428-430 | corrected: a separating contact changes no velocity and asks no one |
| Collision.VetoedContactIgnored | src/Space.cpp:431 | corrected: a vetoed contact changes no velocity |
| Collision.AcceptedContactResponds | src/Space.cpp:410-484 | corrected: an accepted contact asks every body participant, leaves a static participant untouched and keeps each participant's kind |
| Collision.RestitutionDynamic | src/Space.cpp:410-446 | after the response, the relative normal velocity at the contact point is -0.5 times what it was |
| Collision.MomentumConserved | src/Space.cpp:440-446 | the response conserves the total linear momentum of the two bodies |
| Collision.StaticIsBodyAtRest | src/Space.cpp:447-470 | against a static object, the closing velocity is the dynamic body's velocity relative to a body at rest |
| Collision.RestitutionStatic | src/Space.cpp:447-484 | corrected: the mover's normal velocity at the contact point along the normal facing away from the static object is reversed and halved |
| Collision.SecondMoverAsWrittenMissesImpact | src/Space.cpp:454-472 | as written: a dynamic second participant moving into the static first one is taken as separating, and no response is applied although it is closing |
| ZSort.SortedIsNonIncreasing | src/Space.cpp:670-672 | sorted by the comparator means the distances never increase |
| ZSort.Sort | src/Space.cpp:685 | sorts the array in place by the comparator, as a permutation of its contents |
| ZSort.Insert | src/Space.cpp:685 | one insertion step extends the sorted prefix by one, as a permutation |
| ZSort.Render | src/Space.cpp:674-692 | the draw order is a permutation of the entries, sorted farthest first, and each entry keeps its body's distance |
| ZSort.FarthestDrawnFirst | src/Space.cpp:685-692 | every listed body is drawn, and a body drawn earlier is at least as far away as every body drawn after it: a body is drawn before the nearer ones |
| Space.Space.StartHyperspaceTo | src/Space.cpp:610-626 | a jump that cannot be made, or one to the current system, changes nothing; otherwise everything is cleared, the player disabled, the destination recorded and the animation counter set to 0 |
| Space.Space.Depart | src/Space.cpp:618-624 | the state becomes `ClearAll` of the old one and the journey becomes the destination with counter 0 and the player disabled |
| Space.Space.DoHyperspaceTo | src/Space.cpp:632-658 | the destination system becomes current; the frames carry exactly its descriptors; the player's frame carries the target exactly when the target is framed; only fresh bodies are listed besides the player, and the player is listed exactly when it was before; the player is placed and stopped, enabled, and no jump is pending |
| Space.Space.Arrive | src/Space.cpp:638-651 | clearing, building and placing: the frames carry the system, the player sits in the target's frame when there is one, only fresh bodies are listed besides the player, and the player is listed exactly when it was before |
| Space.Space.Rebuild | src/Space.cpp:638-639 | after clearing and building, the frames carry exactly the system, only fresh bodies are listed besides the player, and the player is listed exactly when it was before |
| Space.OnlyNewBodies | src/Space.cpp:638-639 | building on a list holding at most the player adds only fresh bodies |
| Space.PlayerStaysListed | src/Space.cpp:639 | building only appends fresh bodies, so the player is listed afterwards exactly when it was before |
| Space.Space.PlacePlayer | src/Space.cpp:646-650 | only the player changes: its position, its frame, and a zero velocity |
| Space.Space.TimeStep | src/Space.cpp:566-574 | with no pending jump nothing changes; with one, the counter advances by `step`; the jump completes exactly when the counter exceeds 1.0, after which the counter is 0, nothing is pending, the destination system is current and its descriptors framed, only fresh bodies are listed besides the player, the player is listed exactly when it was before, and the player is at rest at the placement, in the target's frame when the target is framed and in none otherwise |

## Left out

- `Serialize`/`Unserialize` and the loading fix-ups: they drive an external stream format.
- The drawing in `Render` (`sbreSetDepthRange`, `Body::Render`, `Sfx::RenderAll`). `ZSort.Render` returns the draw order instead.
- `ApplyGravity`, `CollideFrame`, `MoveOrbitingObjectFrames`, `DoECM`, and the rest of `TimeStep` after the hyperspace branch: they are numerics, the external collider, or per-body updates whose code is not part of this model.
- `UseHyperspaceFuel`, `DisableBodyOnly`'s effects beyond a flag, `SpawnPiratesOnHyperspace`, the `onPlayerHyperspaceToNewSystem` signal and the `printf` logging: they are foreign side effects. `CanHyperspaceTo` is the input `canJump`.
- `StarSystem` generation and `GetBodyByPath` are not part of this model. The generated system is an input descriptor tree, and the destination path names the target descriptor's id.
- Space.Space.MakeFrameFor: the terrain search for a surface starport's position (`GetTerrainHeight`, the `MTRand` retries) is not modelled, because it depends on terrain code outside this model. The position on the surface is an input.
- Space.Space.DoHyperspaceTo: the random placement of the player is an input (`placement`), not `Pi::rng`.
- Space.Space.DoHyperspaceTo: `assert(pframe)` is not assumed. The method reports whether a frame was found, and leaves the player frameless when none was.
- Space.Space.UpdateFramesOfReference: rotation matrices are not tracked. The leaving and child transforms, the frame velocities and the stasis velocities are opaque functions of the `Geometry` input. `FLAG_CAN_MOVE_FRAME` is the input predicate `mayMove`.
- Space.Space.RadiusDamage: `Body::OnDamage` is not called. The calls it would receive are returned in order as `Hit` records, and vector length is an input function.
- Systems.FramePair: a rotating frame records its rotation period, not the angular velocity 2π/period, because π is not a real in Dafny.
- `double` and `float` are modelled as exact reals, including `hyperspaceAnim`. Rounding is not modelled.
- ZSort.Sort: insertion sort stands in for `std::sort`. Only the result's properties are claimed: sorted by the comparator and a permutation.
- Collision: the impulse uses exact reals, and `Collidable` requires positive mass and inertia (the source divides by them), and a dynamic participant to be a body, as every `DynamicBody` is. The responses are stated for a unit contact normal, as the collider supplies.
- Deleting frames and bodies frees no memory in the model. A deleted object is removed from the object store.
- Pruning notifies the corpse itself too. The loop at src/Space.cpp:596-598 walks the whole list, corpse included, before the corpse is removed at 599, so the corpse is notified of its own death. The model follows the code.

## Findings

| source | as written | input that shows it | evidently intended | confidence | as-written member | corrected member |
|---|---|---|---|---|---|---|
| src/Space.cpp:449-483 | the one-static-object branch computes `hitNormal` (the normal negated when the mover is the second participant) but never uses it: the separation test and the impulse both use `c->normal` | the first participant static, the second dynamic, with its contact-point velocity along `c->normal` positive, i.e. moving into the static object: the contact is taken as separating and no response is applied | measure the closing velocity and push along `hitNormal`, the normal facing away from the static object | medium, not executed | Collision.HitCallbackAsWritten, Collision.SecondMoverAsWrittenMissesImpact | Collision.HitCallback, Collision.RestitutionStatic |
