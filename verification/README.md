# replacement — a verified model of the game's core logic

This project models the sequential core of *replacement*, a small OpenGL
game prototype written in C, and proves properties of it in Dafny:

- **Thing manager** (`src/thing.c`): the global table from 16-bit ids to
  things. It has an id counter and an initialisation flag, a probing
  `thingAdd`, `thingDelete`, and the type dispatch of `thingLoadFromData`.
- **Box geometry, two revisions.**
  - Shared by both (`module Aabb`): `aabbMinMax`, `aabbMinkowskiDifference`
    and `aabbCollide` have the same text in both files.
  - Older revision in `src/thing.c` (`module Legacy`): `aabbNew`, and a
    slab ray test whose times start at ±∞. ±∞ is modelled as `None`.
  - Newer revision in `src/physics.c` (`module Physics`): `aabbNew`, and a
    slab ray test clamped to `[0, 1]`.
- **Physics step** (`src/physics.c`).
  - `physicsSweep` casts a body's displacement against every other body's
    expanded box. It then moves the body fully, or snaps it to the earliest
    contact.
  - `physicsUpdate` sweeps every dynamic body in table order.
  - The hash table is a sequence of `Body` objects in iteration order, so
    "skip myself" is object identity.
  - Value-level reference definitions (`Resolve`, `Step`) state what the
    in-place methods compute.
- **String split** (`src/utils.c`): `rSplitOnce`.
- **Input, camera and text** (`src/main.c`):
  - the key-binding table updated by `keybindingsPoll`;
  - the yaw/pitch update and pitch clamp of `pCamPan`;
  - the 64-slot batching loop of `renderText`.

**Numbers and strings.**

- Coordinates are Dafny `real`s.
- The float sentinels `FLT_MAX` and `FLT_MIN` keep their values. Vertices
  are assumed to be finite floats (`FloatRange`).
- The newer ray test's parallel threshold `1e-8` and the sweep's push-off
  `1e-4` are constants with the source's values.
- Strings are character sequences without the terminating NUL. A `NULL`
  result is `None`.

The `Body` struct declared in `src/thing.h` is stale. The model's `Body`
carries the fields the physics code actually uses: `pos`, `rot`,
`halfsize`, `width`, `height`, `velocity` and `is_dynamic`.

## Model

| member | source | states |
|---|---|---|
| ThingManager.Things.constructor | src/thing.c:13 | A new manager is empty, its counter is 0 and it is not initialised. |
| ThingManager.Things.Init | src/thing.c:16-20 | `thingsInit` leaves an empty map, `curid == 0` and `init` set. |
| ThingManager.Things.Add | src/thing.c:22-41 | Uninitialised: `Err`, and neither the manager nor `t` changes. Otherwise: `Ok`. The new id was not a key before and maps to `t` afterwards; every other entry is unchanged. `curid` strictly grows. The id is the last counter value used, truncated to 16 bits, and every earlier probe hit a live id. The probe loop terminates while fewer than 65536 ids are live. |
| ThingManager.Things.Delete | src/thing.c:43-60 | Uninitialised or absent id: `Err`, nothing changes. Otherwise: `Ok`, exactly that key is removed, and the counter is kept. |
| ThingManager.Ids | src/thing.h:58 | The set of 16-bit ids `0 .. n-1`, with exactly `n` members. |
| ThingManager.FreeIdExists | src/thing.c:31-33 | While fewer than 65536 ids are live, some 16-bit id is free: the precondition under which the probe loop ends. |
| ThingManager.ProbeCloser | src/thing.c:31-33 | Each unsuccessful probe brings the truncated counter one step closer, modulo 65536, to a free id: the loop's termination measure. |
| ThingManager.ThingLoadFromData | src/thing.c:459-499 | Unknown kind: `null`, and the body is untouched. Triangle and square: the body's half-size becomes the as-written `aabbNew` half-size of the built-in vertex array, whose depth is `FLT_MIN/2`. Backpack and cube: the body is untouched. Any known kind: a new thing with the kind, the data handle and a fresh copy of the body. |
| ThingManager.TriangleHalfSize | src/thing.c:159-163 | The built-in triangle's intended box is half the width by half the height, with no depth. |
| ThingManager.SquareHalfSize | src/thing.c:165-170 | The built-in square's intended box is the same as the triangle's. |
| ThingManager.TriangleHalfSizeAsWritten | src/thing.c:469-473 | The box the loader stores for the triangle has the intended width and height but a depth of `FLT_MIN/2`. |
| ThingManager.SquareHalfSizeAsWritten | src/thing.c:478-482 | The box the loader stores for the square is the same as for the triangle, depth `FLT_MIN/2` included. |
| Aabb.AabbMinMax | src/physics.c:7-10 | The corners are symmetric about the centre, twice the half-size apart. |
| Aabb.MinMaxOrdered | src/physics.c:7-10 | `min <= max` on every axis exactly when the half-size is non-negative; the box is exactly the points between the corners. |
| Aabb.MinkowskiDifference | src/physics.c:12-15 | The result contains `p - q` for every point `p` of `a` and `q` of `b`. Non-negative half-sizes give a non-negative result. The centre is `a.pos - b.pos`. |
| Aabb.IntersectByAxes | src/physics.c:35-43 | Two boxes share a point exactly when they overlap on all three axes. |
| Aabb.MinkowskiOriginTest | src/physics.c:35-43 | The origin lies in the Minkowski difference exactly when the boxes share a point. |
| Aabb.AabbCollide | src/physics.c:35-43 | `aabbCollide` as written (the same text is at src/thing.c:96-104). It holds exactly when y and z overlap and, on x, `a`'s right face is at or left of `b`'s left face (and `a`'s left face at or left of `b`'s right face). |
| Aabb.AabbCollideAsWritten | src/physics.c:41-42 | The as-written `aabbCollide` holds exactly when y and z overlap and, on x, `a` lies entirely at or left of `b`'s left face. |
| Aabb.AabbCollideMissesCoincidentBoxes | src/thing.c:102-103 | Two identical unit boxes share every point, yet the as-written test reports no collision. |
| Aabb.AabbOverlap | src/physics.c:41-42 | The intended test, `max >= 0` on x as on y and z: true exactly when the boxes share a point. |
| Physics.SeededExtremes | src/physics.c:18-28 | Running min/max seeded with `FLT_MAX` / `-FLT_MAX` over at least one finite vertex are the least and greatest coordinate. |
| Physics.SpanAxis | src/physics.c:18-28 | The scan's results are the true least and greatest coordinates, in order. |
| Physics.SpanHalfSizeIsExtent | src/physics.c:30-32 | The stored half-size is `(maxx-minx)/2*width`, `(maxy-miny)/2*height`, and the full z span `maxz-minz`. |
| Physics.SpanHalfSizeNonNegative | src/physics.c:30-32 | With non-negative width and height every component is non-negative. |
| Physics.ScanStep | src/physics.c:20-28 | One loop step folds the next vertex into the running minimum and maximum. |
| Physics.AabbNew | src/physics.c:17-33 | Only `halfsize` changes, to the span half-size of the vertices. |
| Physics.ContactNormal | src/physics.c:82-100 | At most one non-zero component, valued in {-1, 0, 1}. A non-zero component lies on an axis of least penetration and carries the sign of the offset from the centre. x wins only when strictly shallower than y and z; y wins only when strictly shallower than z. |
| Physics.ContactNormalIsSignedUnit | src/physics.c:82-100 | The normal is the sign of the offset on one axis and 0 on the others. That axis is of least penetration and strictly shallower than every later axis, which is the x-then-y-then-z tie rule. |
| Physics.EntryExitMonotone | src/physics.c:53-70 | Entry grows and exit shrinks as axes are processed; once blocked, the test stays blocked. |
| Physics.EntryExitRange | src/physics.c:51 | Entry never drops below its seed 0, and exit never rises above its seed 1. Entry can exceed 1 and exit can fall below 0; the test then rejects. |
| Physics.RayCast | src/physics.c:46-104 | The reference slab test. A parallel axis outside its slab, or an entry after the exit, is a miss. Otherwise it is a hit at the latest entry time with `ContactNormal` there. No contract of its own: see RayHitWithinMotion and InsideHitsAtZero. |
| Physics.AabbIntersectRay | src/physics.c:46-104 | The returned hit is the slab test's reference result; a miss is the all-zero `Hit`. |
| Physics.HitAt | src/physics.c:73-100 | A hit at time `t` at position `pos + magnitude*t`, with the contact normal of that point. |
| Physics.RayHitWithinMotion | src/physics.c:51 | On a hit, `0 <= time <= 1` and `pos = pos0 + magnitude*time`; a miss is the all-zero `Hit`. |
| Physics.ParallelOutsideMisses | src/physics.c:54 | An axis whose magnitude is at most `1e-8` in absolute value and whose start lies strictly outside the slab gives no hit. |
| Physics.NearFarStraddleZero | src/physics.c:55-59 | On a moving axis, a start inside the closed slab has near time `<= 0 <=` far time. |
| Physics.InsideEntryExit | src/physics.c:51-70 | From inside the closed box, entry stays 0, exit stays non-negative, and nothing blocks. |
| Physics.InsideHitsAtZero | src/physics.c:51 | A start inside the closed box (faces included) hits at time 0, at the start, for any magnitude. |
| Physics.Earliest | src/physics.c:122-124 | The kept hit has minimal time among all hits; every earlier index has a strictly later time, so ties keep the first. `None` exactly when nothing hits. |
| Physics.EarliestSnoc | src/physics.c:122-124 | Adding one more hit replaces the kept one only when it is a hit with a strictly smaller time. |
| Physics.ObstaclesSnoc | src/physics.c:117-119 | One more body adds its expanded box (its centre, with the summed half-sizes), unless it is the swept body itself. |
| Physics.HitsSnoc | src/physics.c:121 | Every obstacle is ray-tested from the body's position with the same displacement. |
| Physics.ClosestSnoc | src/physics.c:122-124 | `closest` is replaced only by a strictly earlier hit. |
| Physics.ClosestHit | src/physics.c:107-125 | The loop keeps the earliest hit against every other body's expanded box, in table order. |
| Physics.Resolve | src/physics.c:106-149 | The reference sweep. It takes the earliest hit against the obstacles, or else the full displacement. No contract of its own: see SweepOutcome. |
| Physics.PhysicsSweep | src/physics.c:106-149 | The new position and the local velocity are `Resolve` of the old position, the displacement and the obstacles. All other fields of the body are unchanged. |
| Physics.SweepOutcome | src/physics.c:127-148 | Take any list of hits in obstacle-table order. With no hit, the body moves by exactly the displacement and the velocity is kept. Otherwise it moves to the first earliest hit's contact point plus `1e-4` times that hit's normal, and one velocity component is zeroed. |
| Physics.ZeroAxisClearsOne | src/physics.c:137-143 | Exactly one velocity component is zeroed: x if the normal has x, else y, else z (z also when the normal is all zero). |
| Physics.Step | src/physics.c:151-166 | The reference update: `Resolve` applied to every dynamic body in table order. No contract of its own: see StepMovesOnlyDynamic and LoneBodyMovesFreely. |
| Physics.StepPrefix | src/physics.c:154-165 | Sweeping a prefix of the table keeps the table's length. |
| Physics.ObstaclesAgree | src/physics.c:117 | With distinct bodies, the objects a sweep reads are the value-level obstacles: the identity skip is the index skip. |
| Physics.PhysicsUpdate | src/physics.c:151-166 | The bodies end in the states of `Step` over their old states: dynamic bodies are swept in table order, each against the already-updated others. |
| Physics.ObstaclesOfSkipsSelf | src/physics.c:117-119 | Body `k` is tested against every other body `j` exactly once, in order, with box `Box(pos_j, half_k + half_j)`, and never against itself. |
| Physics.StepPrefixMovesOnlyDynamic | src/physics.c:160-164 | Sweeping a prefix changes only positions; static bodies are untouched and no velocity is written. |
| Physics.StepMovesOnlyDynamic | src/physics.c:160-164 | A whole update changes only positions, and only of dynamic bodies; `velocity` never changes. |
| Physics.LoneBodyMovesFreely | src/physics.c:127-129 | A dynamic body alone in the table moves by `velocity * dt`. |
| Legacy.HighOfSeed | src/thing.c:79-89 | A running maximum seeded above the most negative float is the larger of the seed and the true maximum. |
| Legacy.AsWrittenHalfSize | src/thing.c:78-94 | The half-size as written, with the maximum seeded by `FLT_MIN`. No contract of its own: see AsWrittenHalfSizeClamps. |
| Legacy.AsWrittenHalfSizeClamps | src/thing.c:79-93 | As written, every upper extent is raised to at least `FLT_MIN` before the spans are halved. |
| Legacy.TriangleDepthAsWritten | src/thing.c:79-93 | For the flat built-in triangle, the as-written z half-size is `FLT_MIN/2`; the intended one is 0. |
| Legacy.HalfSizeIsExtent | src/thing.c:91-93 | The intended half-size is each span halved, x and y scaled by width and height; it is non-negative for non-negative scales. |
| Legacy.AabbNew | src/thing.c:78-94 | Only `halfsize` changes, to the as-written (`FLT_MIN`-seeded) half-size of the vertices. |
| Legacy.LegacyNormal | src/thing.c:134-146 | When x is strictly shallower than y, the normal is the sign of the x offset on x and 0 elsewhere. Otherwise it is the sign of the y offset on y. It is never on z, whatever the z penetration. |
| Legacy.StoppedMonotone | src/thing.c:114-124 | Once an axis has stopped the test, it stays stopped. |
| Legacy.LegacyHitAt | src/thing.c:127-146 | A hit at time `t` at position `pos + magnitude*t`, with the older normal of that point. |
| Legacy.LegacyRayCast | src/thing.c:106-150 | The reference older slab test. A still axis on or outside a face is a miss, and so is a rejected entry/exit pair; otherwise it is a hit at the last entry. No contract of its own: see MovingHitShape and MovingHitOnBox. |
| Legacy.LegacyAabbIntersectRay | src/thing.c:106-150 | The returned hit is the older slab test's reference result. |
| Legacy.ZeroAxisBoundaryMisses | src/thing.c:121-123 | A zero-magnitude axis whose start lies on or outside either face gives no hit: the boundary counts as outside. |
| Legacy.EntryExitBounds | src/thing.c:111-120 | Entry and exit are `None` (±∞) exactly when no axis has moved so far. Otherwise they bound every moving axis's near and far times. |
| Legacy.AxisPointInside | src/thing.c:116-120 | A time between a moving axis's near and far times places the point within that axis's interval. |
| Legacy.StillHitHasNoTime | src/thing.c:111-126 | With all magnitudes zero, a hit has no defined time or position (the C computes `0 * -inf`), and a zero normal. |
| Legacy.SomeAxisMoves | src/thing.c:115 | A non-zero magnitude moves along some axis. |
| Legacy.MovingHitShape | src/thing.c:126-146 | With a non-zero magnitude, a hit has a time, its position is `pos + magnitude*time`, and its normal is never on z, with at most one axis. |
| Legacy.NotStoppedPrefix | src/thing.c:114-124 | A test that is not stopped after three axes was not stopped after fewer. |
| Legacy.MovingAxisInside | src/thing.c:116-127 | An accepted hit's position lies in the box's interval on each moving axis. |
| Legacy.StillAxisInside | src/thing.c:121-123 | On an axis that does not move and did not stop the test, every point lies strictly inside the interval. |
| Legacy.AcceptedAxisInside | src/thing.c:114-127 | An accepted hit's position lies in the box's interval on every axis. |
| Legacy.MovingHitOnBox | src/thing.c:126-129 | With a non-zero magnitude and non-negative half-sizes, a hit's position lies in the closed box. |
| Legacy.AlongInBox | src/thing.c:127-129 | A point within all three intervals lies in the box. |
| Legacy.NearFarStraddle | src/thing.c:116-120 | On a moving axis, a start strictly inside the slab has near time `< 0 <` far time. |
| Legacy.InsideEntryExit | src/thing.c:111-124 | From strictly inside the box, entry is negative, exit positive, and nothing stops the test. |
| Legacy.InsideHitsBehindOrigin | src/thing.c:126-132 | From strictly inside the box, with a non-zero magnitude, the older test reports a hit at a negative time, behind the start. |
| Utils.ScanFrom | src/utils.c:27-37 | The scan stops at or before its start, on a match of the delimiter's first character. |
| Utils.RSplitOnce | src/utils.c:20-51 | The result is that of the backward scan, with its reset on mismatch. `None` when it finds nothing. Otherwise `LEFT` is `input[..i]` and `RIGHT` is `input[i+1..]`, where `i` is where the delimiter's first character matched. |
| Utils.ScanFindsOccurrence | src/utils.c:27-37 | Wherever the scan stops, the whole delimiter occurs there. |
| Utils.FoundIsOccurrence | src/utils.c:27-50 | A found index starts an occurrence of the delimiter; the empty input is never split. |
| Utils.LeftIsPrefix | src/utils.c:42-46 | `LEFT` is exactly the text before the occurrence. |
| Utils.SingleCharScan | src/utils.c:27-37 | For a one-character delimiter, the scan stops at the character's last occurrence, and finds nothing exactly when it does not occur. |
| Utils.MissesOccurrenceAfterPartialMatch | src/utils.c:34-36 | "ab" occurs in "abb", yet the scan finds nothing. |
| Utils.FindsEarlierOccurrence | src/utils.c:34-36 | "ab" occurs in "ababb" at 0 and at 2, yet the scan stops at 0. |
| Utils.RightKeepsDelimiterTail | src/utils.c:40-41 | Splitting "a::b" at "::" gives ":b" as the right side. |
| Utils.LastFrom | src/utils.c:27-37 | The corrected search: an occurrence at or before `i`, with none after it. `None` exactly when there is none. |
| Utils.LastOccurrence | src/utils.c:27-37 | The corrected search: the last whole occurrence, or `None` exactly when the delimiter does not occur. |
| Utils.SplitLast | src/utils.c:39-50 | The corrected split is `None` exactly when the delimiter does not occur. |
| Utils.SplitLastRejoins | src/utils.c:39-50 | Both sides of the corrected split exist together, and `LEFT + delim + RIGHT == input`. |
| Utils.SingleCharAgrees | src/utils.c:20-51 | For a one-character delimiter, `rSplitOnce` as written is exactly the corrected split, on both sides. |
| Keybindings.Defaults | src/main.c:164-176 | The default table has `K_BINDS` (9) entries. |
| Keybindings.FirstMatch | src/main.c:186-190 | The first binding of the key in table order, or `None` exactly when no binding has that key. |
| Keybindings.PollSpec | src/main.c:183-202 | The reference event: only the first binding of the key gets a new `pressed` flag. No contract of its own: see PollTouchesFirstMatchOnly. |
| Keybindings.NewKeybinds | src/main.c:164-176 | A fresh table holding the defaults. |
| Keybindings.Poll | src/main.c:183-202 | The table after the event is `PollSpec` of the table before it. |
| Keybindings.PollTouchesFirstMatchOnly | src/main.c:186-201 | Only the first binding of the key can change; an unbound key changes nothing; size, keys and callbacks are kept. |
| Keybindings.NoCallbackFollowsHold | src/main.c:192-194 | A plain binding is pressed exactly when the action is `PRESS` or `REPEAT`. |
| Keybindings.ToggleFollowsPressOnly | src/main.c:195-197 | A toggle binding is pressed exactly when the action is `PRESS`; `REPEAT` and `RELEASE` clear it. |
| Keybindings.PollIdempotent | src/main.c:183-202 | The same event twice has the effect of once. |
| Keybindings.DefaultsReachOwnSlot | src/main.c:164-176 | No key is bound twice by default, so every bound key reaches its own slot. |
| Keybindings.DefaultsCallbacks | src/main.c:164-176 | Movement and jump are plain bindings; pause, shoot, aim and reload are toggles; none starts pressed. |
| Camera.ClampPitch | src/main.c:802-803 | The result lies in `[-89, 89]`. It is the input when already there, and the nearer bound otherwise. |
| Camera.PerspectiveCamera.constructor | src/main.c:732-747 | `pCamInit`: level, yaw 0, first event pending, sensitivity 0.1. |
| Camera.PerspectiveCamera.PCamPan | src/main.c:786-806 | The camera's new state is `Pan` of the old state and the cursor position, and the view is recomputed once. |
| Camera.Pan | src/main.c:786-806 | The reference pan. No contract of its own: see PanPostState and LaterPanFollowsCursor. |
| Camera.PanPostState | src/main.c:796-803 | After any pan, the pitch is in `[-89, 89]`, `lastx == xpos`, `lasty == ypos`, the first-event flag is down, and the sensitivity is kept. |
| Camera.FirstPanTurnsNothing | src/main.c:787-791 | On the first event both offsets are 0: the yaw is kept and the pitch is only clamped. |
| Camera.LaterPanFollowsCursor | src/main.c:793-803 | Later events turn the yaw by the x movement times the sensitivity (`Offset`). They turn the pitch by the inverted y movement times the sensitivity, clamped. |
| Camera.OffsetOfNoMovement | src/main.c:787-791 | A cursor that has not moved turns the camera by nothing. |
| Camera.PanIdempotent | src/main.c:786-806 | Reporting the same cursor position again changes nothing. |
| Camera.ClampPitchMonotone | src/main.c:802-803 | The clamp is monotone and idempotent. |
| TextBatch.Glyphs | src/main.c:995-1013 | No more ids than characters. |
| TextBatch.Chunks | src/main.c:1018-1023 | Every draw is non-empty and holds at most 64 ids; all but the last hold exactly 64. |
| TextBatch.RenderBatch | src/main.c:966-975 | A zero-length flush draws nothing; otherwise the first `length` slots are drawn. |
| TextBatch.Place | src/main.c:1013 | Only the slot at `workingIndex` changes, and it takes the id: the slots before it and after it keep their values. |
| TextBatch.NextChar | src/main.c:992-1021 | One pass of the loop body keeps `Filling`. The ids drawn so far, followed by the pending slots, are the drawn ids of the characters read. Every draw so far was a full batch. With nothing pending, the slots hold the last draw. |
| TextBatch.FillSlots | src/main.c:989-1021 | After the loop, `Filling` holds for the whole text. |
| TextBatch.AllFullEach | src/main.c:1018-1021 | Each draw made inside the loop holds exactly 64 ids. |
| TextBatch.Flush | src/main.c:1018-1021 | Drawing a full set of pending ids keeps every draw full. It moves the ids from pending to drawn, in order. |
| TextBatch.GlyphsStep | src/main.c:995-1016 | A character other than `'\n'` and `' '` extends the drawn-or-pending ids by its own id. Any other character leaves them as they are. |
| TextBatch.FlattenSnoc | src/main.c:1019 | A new draw appends its ids after those already drawn. |
| TextBatch.RenderText | src/main.c:977-1024 | The draws are exactly the 64-id chunks of the drawn characters' ids, in order. Newlines and spaces take no slot. The slots end up holding the last draw. |
| TextBatch.FullChunks | src/main.c:1016-1023 | Full batches followed by a short remainder are chunked back into themselves: a batch is flushed exactly when it reaches 64. |
| TextBatch.FlattenFront | src/main.c:1018-1023 | The ids of a list of draws are the first draw's followed by the rest's. |
| TextBatch.ChunksFlatten | src/main.c:1018-1023 | Together, the draws send every drawn character's id, in order. |
| TextBatch.TotalIsLength | src/main.c:966-967 | The instance counts of the draws add up to the number of ids sent. |
| TextBatch.GlyphCount | src/main.c:995-1023 | The number of instances drawn is the number of characters other than `'\n'` and `' '`. |
| TextBatch.SmallTexts | src/main.c:1023 | A text with nothing to draw makes no draw; at most 64 drawn characters make one draw. |
| Bodies.States | src/physics.c:154-158 | One state per body, in table order. |
| Bodies.Body.constructor | src/thing.c:495 | A body holding exactly the given field values (the copy `dest->loc = *loc`). |

## Left out

- Rendering, shaders, GLFW windows, FreeType, mesh loading, logging and file I/O are graphics or I/O plumbing.
  - `pCamUpdateView` is trigonometry through cglm. It is recorded only as a count of view recomputations.
  - `renderText`'s pen position and per-glyph matrices (`charMats`) are floating-point layout and are not modelled.
  - `_renderText`'s GL calls are recorded as the list of id sequences they draw.
- `thingLoadFromData`'s `malloc` failure path (`NULL` when out of memory) is left out: allocation is not modelled.
  - `Renderable` and its render/init function pointers are not modelled either.
  - `self` is an opaque integer handle.
- The khash table itself is abstracted away.
  - The registry is a `map<int, Thing>`.
  - The physics table is a sequence of bodies in the table's iteration order.
  - The mapping from ids to iteration order is not modelled.
- ThingManager.Things.Add: requires fewer than 65536 live ids when initialised. With a full table the C probe loop never ends, so there is nothing to model.
  - `curid` is an unbounded integer. The wrap-around of the C `int` after 2^31 additions is not modelled.
  - Ids are truncated to 16 bits explicitly.
- `THING_CUBE` is used by `thingLoadFromData` but not declared in `src/thing.h`. Its value here (3) is an assumption, distinct from the other kinds.
- Physics.PhysicsUpdate: requires distinct bodies, as distinct table entries own distinct bodies. Two entries sharing one `Body` are not modelled.
- Physics.AabbNew and Legacy.AabbNew: the half-size lemmas require at least one finite vertex. With `n == 0` the C result comes from float overflow of the sentinels, which reals do not reproduce. The built-in callers pass three or four vertices.
- Physics.AabbIntersectRay: the parallel threshold `1e-8` and the push-off `1e-4` are fixed constants with the source's values, not parameters.
- Legacy.LegacyAabbIntersectRay: with all magnitudes zero the C computes `0 * -inf`, which is NaN. The model reports such a hit with no time and no position.
- `aabbCollide` writes through an uninitialised pointer. The model computes the difference as a local value and keeps the as-written x test.
- Float rounding, the `float`/`double` mixing in `pCamPan` and the `>> 6` advance arithmetic of `renderText` are not modelled.
- `renderText` indexes `charMap` by character. Characters above 127 are outside that table in C and are not treated specially here.
- `keybindingsPoll` ignores its window, scancode and modifier arguments, so the model leaves them out.
  - `keybindingsInit` installs the same function as the mouse-button callback, whose arguments arrive in different positions. `keybindingsInit` is not part of this model.
- Utils.RSplitOnce: requires a non-empty delimiter. With an empty delimiter the C reads `delim[-1]`, which is undefined behaviour, so there is nothing to model.
- `rSplitOnce`'s copies (`strdup`, `malloc`/`memcpy`) are modelled as sequence slices. Allocation failure is not modelled.

## Findings

| source | as written | input that shows it | evidently intended | confidence | as-written member | corrected member |
|---|---|---|---|---|---|---|
| src/physics.c:41 | `aabbCollide` tests `max[0] <= 0` on x (the same text is at src/thing.c:102) | two identical unit boxes at the origin: they share every point, yet no collision is reported | `max[0] >= 0`, as on y and z | high (not executed) | Aabb.AabbCollideMissesCoincidentBoxes | Aabb.AabbOverlap |
| src/thing.c:79 | the running maximum of the older `aabbNew` starts at `FLT_MIN`, the smallest positive float | the built-in flat triangle gets z half-size `FLT_MIN/2` instead of 0; any shape lying entirely below 0 on an axis gets a span up to `FLT_MIN` | start at `-FLT_MAX`, as the newer revision does | high (not executed) | Legacy.TriangleDepthAsWritten | Legacy.HalfSizeIsExtent |
| src/utils.c:34-36 | after a partial match fails, the scan resets without testing the failing character against the delimiter's last character | `rSplitOnce("abb", "ab", LEFT)` returns `NULL`, though "ab" occurs at index 0; on "ababb" it splits at index 0, though the last "ab" is at index 2 (Utils.FindsEarlierOccurrence) | find the last whole occurrence | high (not executed) | Utils.MissesOccurrenceAfterPartialMatch | Utils.SplitLastRejoins |
| src/utils.c:41 | `RIGHT` returns `input[i + 1..]`, one past the delimiter's first character | `rSplitOnce("a::b", "::", RIGHT)` returns ":b" | the text after the whole delimiter, "b" | medium (not executed) | Utils.RightKeepsDelimiterTail | Utils.SplitLastRejoins |

The registry's loader calls the older `aabbNew` as written (Legacy.AabbNew, seeded with `FLT_MIN`). The triangles and squares it loads therefore carry a depth of `FLT_MIN/2` (ThingManager.TriangleHalfSizeAsWritten). The corrected half-size, Legacy.HalfSize, is what ThingManager.TriangleHalfSize and ThingManager.SquareHalfSize describe.
