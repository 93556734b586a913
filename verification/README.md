# Kriegsspiel client engine, modelled in Dafny

This project models the client-side simulation of the Kriegsspiel web
frontend: a shared battle map where each team's units carry queued orders
(move, attack, ability attack, change formation, wait, retreat, deliver a
message), and the browser keeps a local copy of the world in step with the
server over a WebSocket.

The model covers:

- the unit, its stats and modifiers, and its command queue;
- the unit, chat and cursor registries with their "dirty" change tracking;
- the world clock and stage;
- the event emitter;
- the paint and overlay layers and the camera;
- the socket's outbound batching and inbound message handling;
- the height map, the field-of-view polygon and its cache;
- the unit layer's move-order grouping and hp colour;
- the right-click context predicates.

Every module is a functional model:

- State is an immutable datatype.
- The clock (`performance.now()`, `Date.now()`) and the world are parameters.
- A method that mutates the registry or emits events returns the new state
  together with the effects, in emission order.
- A JavaScript `Map` or `Set` is an insertion-ordered sequence with distinct
  keys (`Collections`), because iteration order is observable in the code:
  sync order, pick ties and move-order grouping all depend on it.
- Numbers are exact reals. Where the code depends on a 32-bit integer
  operation, `NaN`, or JavaScript rounding, the model writes that behaviour out.

Source paths below are relative to the repository root.

## Model

| member | source | states |
|---|---|---|
| VecMath.Clamp | src/engine/math.ts:3-5 | the result lies in `[min, max]` when the bounds are ordered, is `v` itself when `v` is already inside, and is `min` when the bounds cross |
| VecMath.Add | src/engine/math.ts:7-9 | subtracting `b` again gives back `a`; adding the zero vector changes nothing |
| VecMath.Sub | src/engine/math.ts:11-13 | the difference is the zero vector exactly when the two vectors are equal |
| VecMath.Mul | src/engine/math.ts:15-17 | scaling by 1 is the identity and scaling by 0 gives the zero vector |
| VecMath.Dot | src/engine/math.ts:24-26 | a vector dotted with itself is its squared length, never negative |
| VecMath.Normalize | src/engine/math.ts:19-22 | a zero-length vector is divided by the fallback length 1 and so comes back unchanged |
| VecMath.NormalizeScalesBack | src/engine/math.ts:19-22 | a non-zero vector, normalized and scaled back by its length, is recovered exactly |
| MoveFrames.Lerp | src/engine/util.ts:76-83 | interpolation at fraction 0 is the start position and at fraction 1 the end position |
| MoveFrames.InsertedCount | src/engine/util.ts:72-75 | a pair gets inserted frames only when its frames are at least two steps apart, and all inserted steps fit strictly inside the gap |
| MoveFrames.Segment | src/engine/util.ts:70-85 | a pair contributes its first frame followed by exactly `InsertedCount` frames, the `k`-th being the interpolated frame at `a.t + k*step` |
| MoveFrames.InterpolateMoveFrames | src/engine/util.ts:58-90 | fewer than two frames come back unchanged; otherwise the output is the expansion, never shorter than the input, with the same first and last frame |
| MoveFrames.ExpandLength | src/engine/util.ts:66-88 | the output length is the input length plus the inserted count of every consecutive pair |
| MoveFrames.InputFramesKept | src/engine/util.ts:66-70 | every input frame appears in the output at its offset |
| MoveFrames.OffsetsIncrease | src/engine/util.ts:66-70 | input frames keep their relative order in the output |
| MoveFrames.InsertedFramesInterpolate | src/engine/util.ts:75-84 | the `s`-th frame after input frame `i` is at time `a.t + s*step`, at the position interpolated at fraction `s*step/dt` |
| MoveFrames.ExpandIncreasing | src/engine/util.ts:58-90 | strictly increasing input times give strictly increasing output times |
| MoveFrames.DueCount | src/engine/units/baseUnit.ts:327-330 | counts exactly the leading frames whose time has come; the next frame, if any, is not yet due |
| MoveFrames.PlayNext | src/engine/units/baseUnit.ts:319-336 | an empty queue stops the timer and emits nothing; otherwise a suffix of the queue remains, the position is the last consumed frame's, and a change is emitted |
| MoveFrames.PlayNextConsumesDue | src/engine/units/baseUnit.ts:327-333 | a tick consumes exactly the due frames and stops at the first frame that is not due |
| MoveFrames.PlayNextDrains | src/engine/units/baseUnit.ts:327-333 | a tick late enough consumes the whole queue and lands on the last frame's position |
| Collections.SetAdd | src/engine/world/unitregistry.ts:33-35 | `Set.add` appends only a new element, the membership becomes the old one plus `x`, and no duplicates appear |
| Collections.SetDelete | src/engine/events.ts:34 | `Set.delete` removes exactly `x` and keeps the set duplicate-free |
| Collections.Filter | src/engine/world/unitregistry.ts:96-98 | the kept elements are exactly those satisfying the predicate, in order |
| Collections.Lookup | src/engine/world/unitregistry.ts:86-88 | `Map.get` finds nothing exactly when no entry has the key; in a map it finds the entry with that key |
| Collections.Put | src/engine/world/unitregistry.ts:28-29 | `Map.set` replaces a known key in place or appends a new one; the keys stay distinct and keep their order |
| Collections.PutThenLookup | src/engine/world/unitregistry.ts:28-29 | after `set`, the key reads back the new record and every other key reads as before |
| Collections.RemoveKey | src/engine/world/unitregistry.ts:77-78 | `Map.delete` removes every entry with the key, keeps the others, and leaves every other lookup unchanged |
| Collections.RemoveKeyDistinct | src/engine/world/unitregistry.ts:77-78 | deleting a key from a map keeps it a map, and every other key still finds the same record |
| Units.ParseType | src/engine/units/types.ts:15-24 | a parsed tag names the kind it was parsed from |
| Units.ParseTypeName | src/engine/units/types.ts:15-24 | every kind's wire tag parses back to that kind, so the eight tags are distinct |
| Units.InitialHp | src/engine/units/baseUnit.ts:139-140 | starting hp is the snapshot's hp clamped into `[0, maxHp]`, or `maxHp` when the snapshot has none |
| Units.InitialAmmo | src/engine/units/baseUnit.ts:142-144 | only kinds with `ammoMax` carry ammunition, defaulting to `ammoMax` |
| Units.DefaultFormation | src/engine/units/cavalry.ts:20-24 | cavalry defaults to no formation, because `FormationType.OnHorse` is not a member of the enumeration and reads as `undefined`; every other kind defaults to `Line` |
| Units.CreateUnit | src/engine/units/index.ts:12-33 | construction succeeds exactly for a known tag; the unit takes the snapshot's id, team, position and optional fields with their defaults, and starts clean and unselected |
| Units.ToState | src/engine/units/baseUnit.ts:155-180 | the serialized unit carries every field, with the kind's wire tag; an absent formation stays absent |
| Units.SnapshotRoundTrip | src/engine/units/baseUnit.ts:84-180 | serializing a well-formed unit (formation absent only for cavalry) and constructing it again restores every serialized field; only local runtime state is reset |
| Units.Merge | src/engine/world/unitregistry.ts:19-22 | `Object.assign` overwrites each field the snapshot carries, except the kind tag (see Left out), and keeps the others |
| Units.MergeOwnState | src/engine/world/unitregistry.ts:19-22 | merging a unit's own state into it changes nothing |
| Units.GettersInOpenField | src/engine/units/baseUnit.ts:251-269 | with no environment state the stat getters report the kind's base stats |
| Units.Move | src/engine/units/baseUnit.ts:103-128 | a direct-view unit moves only for the admin; otherwise the unit lands on the target with each axis clamped into the map; the first move of a dirty period queues the unit; later moves record a frame at most every 50 ms, timed from the period start |
| Units.MoveThrottlesFrames | src/engine/units/baseUnit.ts:119-127 | of two moves less than 50 ms apart in one dirty period, the second records no frame |
| Units.SetDirty | src/engine/units/baseUnit.ts:130-132 | only the registry's dirty set changes, not the unit |
| Units.TakeDamageAsWritten | src/engine/units/baseUnit.ts:147-153 | kinds without `stats.defense` get `NaN` hp; the others lose `amount * defense` and stop at 0 |
| Units.TakeDamageKillsCavalry | src/engine/units/baseUnit.ts:147-153 | a full-health cavalry unit hit for 0 damage ends with `NaN` hp, so it is no longer alive |
| Units.DefenseFactor | src/engine/units/cavalry.ts:9-16 | every kind's damage factor, from `defense` or else `takeDamageMod`, is 1 |
| Units.TakeDamage | src/engine/units/baseUnit.ts:147-153 | hp drops by `amount` times the damage factor and the defense multiplier, stops at 0, and the unit is queued; nothing else changes |
| Units.TakeDamageAgrees | src/engine/units/baseUnit.ts:147-153 | for the kinds that declare `defense`, the corrected version gives the hp the code computes |
| Units.TakeDamageMonotone | src/engine/units/baseUnit.ts:147-153 | in any environment a non-negative hit never raises hp; it kills exactly when the hit times the defense multiplier reaches the remaining hp, so a hit of at least the remaining hp kills wherever that multiplier is at least 1 |
| Units.AddCommand | src/engine/units/baseUnit.ts:338-343 | with `replace` the queue becomes just the new order and the unit is queued and changed; otherwise the order is appended with no effect |
| Units.SetCommands | src/engine/units/baseUnit.ts:349-352 | the stored queue is the serialized form of each given command, in order, and the unit is queued |
| Units.SetThenGetCommands | src/engine/units/baseUnit.ts:345-352 | storing buildable commands and reading them back returns the same orders in the same order |
| Units.ClearCommands | src/engine/units/baseUnit.ts:354-358 | the queue empties, the unit is queued, and a `unit` change is emitted |
| Units.SetFormation | src/engine/units/baseUnit.ts:360-364 | the formation changes, the unit is queued, and a `unit` change is emitted |
| Units.LinkMessage | src/engine/units/baseUnit.ts:366-372 | a new message id is appended, the unit is queued and a change is emitted; a known id does nothing; the ids stay duplicate-free |
| Units.LinkMessageIdempotent | src/engine/units/baseUnit.ts:366-372 | linking the same message twice is the same as linking it once |
| Units.Messages | src/engine/units/baseUnit.ts:374-376 | exactly the registry's messages whose ids the unit links |
| Units.ApplyRemoteFrames | src/engine/units/baseUnit.ts:302-317 | the queue becomes the frames densified with step 3, playback restarts now and the timer runs |
| Units.PlayNextRemoteFrame | src/engine/units/baseUnit.ts:319-336 | an empty queue stops the timer silently; otherwise exactly the due frames are consumed, the unit stands at the last consumed frame's position (or where it was when none was due), nothing but the queue, position and timer changes, and a `remoteMoveFrame` change is emitted |
| Registry.Get | src/engine/world/unitregistry.ts:86-88 | no unit exactly when none has the id; otherwise a stored unit with that id |
| Registry.Store | src/engine/world/unitregistry.ts:29 | the ids stay distinct, every stored unit is the new one or an old one, and units with other ids are kept |
| Registry.StoreThenGet | src/engine/world/unitregistry.ts:29 | the stored unit reads back under its id, and other ids read as before |
| Registry.AddUnitDirty | src/engine/world/unitregistry.ts:33-35 | the id joins the dirty set |
| Registry.AddDirtyMove | src/engine/world/unitregistry.ts:62-69 | the frame is appended to the unit's list, which is created on first use; other lists are untouched |
| Registry.ApplyStep | src/engine/units/baseUnit.ts:115-127 | a unit method's outcome is written back: the unit is stored, queued if the method asked, and its frame recorded |
| Registry.ApplyStepValid | src/engine/units/baseUnit.ts:115-127 | writing back a step that respects the dirty protocol keeps the registry valid: ids distinct, sets duplicate-free, dirty units queued, frames only for queued ids |
| Registry.UnitStepsRespectDirty | src/engine/units/baseUnit.ts:103-153 | `move`, `takeDamage`, `setDirty`, `clearCommands` and `playNextRemoteFrame` flag a unit only when they also queue it, and record frames only for a unit already dirty |
| Registry.Upsert | src/engine/world/unitregistry.ts:18-31 | a known id reads back as the snapshot merged into the stored unit, every other id reads as before, and nothing is queued; a new id is queued when local, even if construction then throws, and the built unit is appended; validity is kept |
| Registry.UpsertOwnState | src/engine/world/unitregistry.ts:18-23 | upserting a stored unit's own state leaves the registry unchanged |
| Registry.Remove | src/engine/world/unitregistry.ts:77-80 | the id is gone and every other id reads as before; a local removal is queued for the server; validity is kept |
| Registry.GetDirtyRemove | src/engine/world/unitregistry.ts:71-75 | the queued removals come out in order, without duplicates, and the queue empties |
| Registry.CloseFrames | src/engine/world/unitregistry.ts:42-48 | a non-empty frame list gains a closing frame 1 ms after its last, at the unit's current position, and stays increasing |
| Registry.Collect | src/engine/world/unitregistry.ts:39-55 | one record per queued id still stored, at most one per id |
| Registry.CollectSound | src/engine/world/unitregistry.ts:39-55 | every collected record belongs to some queued id |
| Registry.GetDirty | src/engine/world/unitregistry.ts:37-60 | the records follow the queue order; queued units are no longer flagged; the queue and the frame lists empty; validity is kept |
| Registry.List | src/engine/world/unitregistry.ts:82-84 | the stored units, exactly |
| Registry.ClearSelection | src/engine/world/unitregistry.ts:90-94 | every unit is deselected and nothing else about it changes |
| Registry.GetSelected | src/engine/world/unitregistry.ts:96-98 | exactly the alive selected units, in registry order |
| Registry.AliveUnits | src/engine/world/unitregistry.ts:101-102 | exactly the alive units, in registry order |
| Registry.PickCandidateNone | src/engine/world/unitregistry.ts:100-117 | there is no pick exactly when no alive unit lies within the radius |
| Registry.PickCandidateMostRecent | src/engine/world/unitregistry.ts:100-117 | the pick is an alive unit within the radius, selected no less recently than any other such unit |
| Registry.PickCandidateFirstOfTies | src/engine/world/unitregistry.ts:100-117 | among equally recent hits the stable sort keeps registry order, so the earliest one is picked |
| Registry.PickAt | src/engine/world/unitregistry.ts:100-117 | a miss changes nothing; a hit stamps the picked unit's `lastSelected` with now and returns it |
| Registry.SelectInRect | src/engine/world/unitregistry.ts:119-139 | every alive unit is (preview-)selected exactly when it lies in the rectangle spanned by the two corners in either order, and is stamped with the clock reading taken at it; dead units are untouched |
| Registry.SelectInRectIdempotent | src/engine/world/unitregistry.ts:119-139 | selecting twice with the same rectangle and clock readings is selecting once |
| Registry.PickAfterSelectInRect | src/engine/world/unitregistry.ts:100-139 | with a strictly advancing clock, a pick right after a rectangle selection finds the alive unit within the radius that comes last in registry order |
| Camera.MaxCorner | src/engine/world/camera.ts:23-24 | the corner limit is never negative, and is either 0 or exactly the map size minus the visible span |
| Camera.ClampToWorld | src/engine/world/camera.ts:22-28 | only the corner changes, the view then fits on the map, and a view that already fits is left as it is |
| Camera.ClampIdempotent | src/engine/world/camera.ts:22-28 | clamping twice is clamping once |
| Camera.SetViewport | src/engine/world/camera.ts:11-14 | the new canvas size is kept, the view fits, and the corner stays put when it already fits |
| Camera.SetWorldSize | src/engine/world/camera.ts:16-20 | the new map size is kept, the view fits, and each corner coordinate is exactly the map centre clamped into `[0, map - view / zoom]` |
| Camera.SetWorldSizeCentres | src/engine/world/camera.ts:16-20 | on a map at least twice the view the corner lands exactly at the centre |
| Camera.WorldToScreen | src/engine/world/camera.ts:30-35 | the camera corner maps to the screen origin |
| Camera.ScreenToWorld | src/engine/world/camera.ts:37-42 | the screen origin maps to the camera corner |
| Camera.TransformsRoundTrip | src/engine/world/camera.ts:30-42 | with a non-zero zoom, the two transforms undo each other in both orders |
| Overlay.List | src/engine/world/overlay.ts:6-8 | reading the list changes nothing |
| Overlay.Clear | src/engine/world/overlay.ts:10-12 | the list empties |
| Overlay.Set | src/engine/world/overlay.ts:14-16 | the list becomes the given items |
| Overlay.Add | src/engine/world/overlay.ts:18-20 | the item goes last and the earlier items stay in order |
| Overlay.AddAfterClearOrSet | src/engine/world/overlay.ts:10-20 | adding after a clear is setting one item; adding after a set extends the set |
| Paint.Clear | src/engine/world/paint.ts:19-22 | no strokes remain and the version moves on |
| Paint.Add | src/engine/world/paint.ts:24-29 | a stroke whose id is already drawn is ignored; any other is appended and counted; ids stay unique |
| Paint.RemoveAt | src/engine/world/paint.ts:34 | `splice(i, 1)` removes exactly the stroke at `i`, the others keep their order |
| Paint.RemoveById | src/engine/world/paint.ts:31-37 | an unknown id returns nothing and changes nothing; otherwise exactly that stroke goes and is returned, and no stroke with that id is left |
| Paint.LastOf | src/engine/world/paint.ts:40-41 | the backwards scan finds the owner's most recent stroke, or none when the owner has none |
| Paint.UndoByOwner | src/engine/world/paint.ts:39-48 | the owner's most recent stroke is removed and returned and every other stroke is kept; an owner with no strokes changes nothing |
| Paint.Undo | src/engine/world/paint.ts:50-54 | the last stroke is removed and returned; an empty layer is left alone |
| Paint.AddThenUndo | src/engine/world/paint.ts:24-54 | adding a new stroke then undoing restores the strokes, with the version moved on twice |
| Paint.AddThenRemove | src/engine/world/paint.ts:24-37 | adding a new stroke then removing it by id restores the strokes |
| Paint.AddIdempotent | src/engine/world/paint.ts:24-29 | adding the same stroke twice is adding it once, which is what makes the server echo harmless |
| Events.On | src/engine/events.ts:6-25 | the listener joins the event's set, which is created on first use; a second registration keeps one copy; other events are untouched; the returned closure is bound to that set |
| Events.OnNewEffect | src/engine/events.ts:10-16 | for an event with no set yet, a fresh set holding just the listener is bound to it |
| Events.OnExistingEffect | src/engine/events.ts:10-16 | for an event that has a set, the listener joins that set |
| Events.Off | src/engine/events.ts:27-39 | the listener leaves the event's set, the event is dropped once its set is empty, other listeners and events are untouched, and an absent listener changes nothing |
| Events.DeleteFromEffect | src/engine/events.ts:31-38 | deleting from the bound set and dropping the key exactly when it empties keeps the emitter's invariant and touches no other event |
| Events.Emit | src/engine/events.ts:41-49 | the listeners called are exactly those registered, without duplicates, copied before the first call; an event with no set calls nothing |
| Events.Unsubscribe | src/engine/events.ts:19-24 | the corrected closure keeps the emitter valid, touches no other listener, and removes its listener while its set is still bound |
| Events.UnsubscribeRemoves | src/engine/events.ts:6-25 | the closure returned by `on`, as written and as corrected, removes that listener |
| Events.OnTwice | src/engine/events.ts:16 | registering a listener twice is registering it once |
| Events.StaleUnsubscribeDropsListener | src/engine/events.ts:19-24 | after `on(f)`, `off(f)` and `on(g)` on one event, `f`'s closure as written removes `g`, while the corrected closure keeps `g` |
| Chat.Get | src/engine/world/messageregistry.ts:28-30 | no message exactly when none has the id; otherwise a stored message with that id |
| Chat.Upsert | src/engine/world/messageregistry.ts:10-26 | a known id is overwritten in place and marks nothing; a new local message becomes dirty; a new remote one becomes unseen unless `ignoreNew`; the registry stays valid |
| Chat.UpsertThenGet | src/engine/world/messageregistry.ts:10-30 | after an upsert the message reads back exactly as given and no other id changes |
| Chat.Resolve | src/engine/world/messageregistry.ts:38-43 | the listed ids that are stored, resolved to their messages in list order; missing ids are skipped |
| Chat.GetDirty | src/engine/world/messageregistry.ts:36-47 | every dirty stored message is returned, nothing else, and the dirty set empties |
| Chat.GetNew | src/engine/world/messageregistry.ts:57-68 | only unseen stored messages are returned, at most one per id, and the unseen set empties |
| Chat.MarkAsRead | src/engine/world/messageregistry.ts:49-55 | a stored message becomes `Read` and a `chat_read` notice carries its id; an unknown id changes nothing and sends nothing |
| Cursor.SetCurrentPos | src/engine/world/cursorregistry.ts:26-44 | the position is always taken; a frame is recorded exactly for the first move of a batch (at time 0) or once 50 ms have passed since the last recorded one; the recording invariant is kept |
| Cursor.RecordingIncreasing | src/engine/world/cursorregistry.ts:26-44 | a recorded batch has strictly increasing times, as playback expects |
| Cursor.GetMoveFrames | src/engine/world/cursorregistry.ts:46-67 | nothing is sent from a localhost page or without frames; otherwise the batch goes out under the player's name at its first frame, stamped with the wall clock, and recording restarts |
| Cursor.FlushStartsAfresh | src/engine/world/cursorregistry.ts:46-67 | a flushed batch is not sent twice, and the next move starts a new batch at time 0 |
| Cursor.UpsertRemoteCursor | src/engine/world/cursorregistry.ts:71-95 | the received cursor, its frames interpolated, replaces any cursor of that name and starts replaying now; other cursors are untouched |
| Cursor.PlayNextFrame | src/engine/world/cursorregistry.ts:97-115 | a cursor without frames stops its replay silently; otherwise exactly the frames due since the replay started are consumed, the cursor moves to the last of them, and an overlay change is signalled |
| Cursor.TickRemote | src/engine/world/cursorregistry.ts:91-93 | one timer tick replays the named cursor and leaves the others; an unknown name does nothing |
| Cursor.DueBatchDrains | src/engine/world/cursorregistry.ts:78-112 | once the last recorded frame is due, every interpolated frame is due and replay ends on the last recorded position |
| Cursor.UpsertThenCatchUp | src/engine/world/cursorregistry.ts:71-115 | a received batch with increasing times, ticked once all of it is due, ends on its owner's last position with nothing left, and the next tick stops the replay |
| Calendar.MonthLength | src/engine/world/world.ts:131-134 | every month of the proleptic Gregorian calendar has 28 to 31 days, February 29 exactly in leap years |
| Calendar.AddDays | src/engine/world/world.ts:131-134 | stepping a valid date forward by whole days gives a valid date |
| Calendar.AddDaysCounts | src/engine/world/world.ts:131-134 | stepping forward `k` days moves the day number by exactly `k`, across month and year ends |
| Calendar.AddSeconds | src/engine/world/world.ts:131-134 | adding `n` seconds to a valid clock gives a valid clock exactly `n` seconds later |
| Calendar.CarrySeconds | src/engine/world/world.ts:131-134 | carrying seconds into minutes, hours and days preserves the total number of seconds |
| Calendar.NextDaySameTime | src/engine/world/world.ts:131-134 | a day later the wall clock reads the same hour, minute and second |
| Calendar.Decimal | src/engine/world/world.ts:136-140 | the decimal rendering of a number is non-empty and all digits |
| Calendar.Pad2 | src/engine/world/world.ts:137 | a number below 100 is written as exactly two digits, tens first, with a leading zero |
| Calendar.Parse | src/engine/world/world.ts:168 | a string is read as a clock only when it has the `YYYY-MM-DD HH:mm:ss` shape and names a real date and time |
| Calendar.FourDigitYear | src/engine/world/world.ts:139 | a year from 1000 to 9999 is written as its four digits |
| Calendar.ParseFormat | src/engine/world/world.ts:131-140 | reading back the formatted clock gives the clock itself, for four-digit years |
| World.NewWorld | src/engine/world/world.ts:28-65 | a new world starts on 1882-06-12 09:00:00 in planning, with no units, messages or logs, and its camera inside the map |
| World.InitialTimeParses | src/engine/world/world.ts:29 | the starting time is a well-formed clock reading 09:00:00 on 12 June 1882 |
| World.HourBucket | src/engine/world/world.ts:167-175 | hours 9 to 11 are morning, 12 to 17 day, 18 to 21 evening, every other hour night, each in both directions |
| World.GetTimeOfDay | src/engine/world/world.ts:167-175 | the time of day is the bucket of the clock's hour; an unreadable clock counts as night |
| World.SkipTime | src/engine/world/world.ts:127-143 | zero or negative seconds change nothing and send nothing; otherwise only the clock moves, to the reformatted advanced time, and `skip_time` with that time is sent iff `update` |
| World.SkipTimeAdvances | src/engine/world/world.ts:127-143 | skipping forward from a readable clock gives a readable clock exactly that many seconds later |
| World.SkipDayKeepsTimeOfDay | src/engine/world/world.ts:127-175 | skipping a whole day keeps the time of day |
| World.SkipUnreadable | src/engine/world/world.ts:130-140 | skipping from an unreadable clock leaves the unreadable `Invalid Date` text, which stays unreadable |
| World.SetStage | src/engine/world/world.ts:154-157 | only the stage changes, to the given one, and `set_stage` with it is sent |
| World.SetOverlay | src/engine/world/world.ts:82-85 | the overlay list becomes the given items, nothing else changes, and an overlay change is signalled |
| World.AddOverlay | src/engine/world/world.ts:87-90 | the item is appended after the earlier items, nothing else changes, and an overlay change is signalled |
| World.ClearOverlay | src/engine/world/world.ts:92-95 | the overlay list empties, nothing else changes, and an overlay change is signalled |
| World.Clear | src/engine/world/world.ts:159-165 | units, overlay, remote cursors and logs are reset while messages, clock, stage and camera are kept |
| World.ClearIdempotent | src/engine/world/world.ts:159-165 | clearing twice is clearing once |
| World.UpsertAll | src/engine/world/world.ts:67-68 | every unit already held is kept; when no state throws, every listed unit is held afterwards; a list whose kinds are all known never throws |
| World.AddUnits | src/engine/world/world.ts:67-70 | only the units change; one `units` change is emitted unless an unknown kind throws first; afterwards every listed unit is held |
| World.AddMessage | src/engine/world/world.ts:72-75 | only the chat changes; the message is stored as given, a new one is queued for the server, and one `chat` change is emitted |
| Stats.StatsOf | src/engine/units/cavalry.ts:9-16 | every kind has positive hp, speed and range and vision 1000; only the messenger has 1 hp; exactly cavalry, general and messenger declare `takeDamageMod` instead of `defense`; only cavalry has no ammunition |
| Stats.AbilityNames | src/engine/units/cavalry.ts:18 | only cavalry lists the `charge` ability |
| Stats.EntryMultiplier | src/engine/units/baseUnit.ts:222-233 | a state without a table entry contributes nothing; a non-zero per-kind override wins over the base value; no contribution exactly when neither exists |
| Stats.EnvProductPositive | src/engine/units/baseUnit.ts:217-237 | with the shipped environment table the product over any environment states is positive |
| Stats.FormationMultiplier | src/engine/units/baseUnit.ts:241-245 | with the shipped formation rows, all empty, every formation multiplier is 1, an absent formation's included |
| Stats.EnvMultiplier | src/engine/units/baseUnit.ts:217-239 | the getter multiplier is the product of what each environment state contributes |
| Stats.NoEntriesNoEffect | src/engine/units/baseUnit.ts:220-234 | states that contribute nothing leave the multiplier at 1 |
| Stats.JsRound | src/engine/units/baseUnit.ts:297 | rounding gives the integer within one half below and strictly less than one half above |
| Stats.SourcesProduct | src/engine/units/baseUnit.ts:279-293 | the listed sources multiply to the same total the getters use |
| Stats.SourcesSound | src/engine/units/baseUnit.ts:279-293 | every listed source is one of the unit's states with exactly the multiplier it contributes |
| Stats.SourcesComplete | src/engine/units/baseUnit.ts:279-293 | every state that contributes a multiplier is listed with it |
| Stats.StatModifierInfoOf | src/engine/units/baseUnit.ts:275-300 | the breakdown's total is the environment product, its percent is `(total - 1) * 100` rounded, and its sources are exactly the contributing states with their multipliers |
| Stats.InfoMatchesGetter | src/engine/units/baseUnit.ts:217-300 | the breakdown total agrees with the stat getters' multiplier, whatever the formation |
| Stats.ForestExample | src/engine/units/enums/UnitEnvModifiers.ts:22-32 | in a forest defense is x1.5 and speed x0.7, and on a forest road the speeds multiply |
| Abilities.NamesDistinct | src/engine/units/modifiers/UnitAbilityModifiers.ts:3-9 | no two ability types share a name |
| Abilities.CreateAbility | src/engine/units/abilities/index.ts:6-18 | double-time, charge and inaccurate fire build an ability of that name; gallop and throttle fail |
| Abilities.GetStatMultiplier | src/engine/units/abilities/chargeAbility.ts:7-12 | charge: damage 2, speed 4, damage taken 2; double time: speed 2; inaccurate fire: damage 0.5; every other key 1, so always positive |
| Abilities.ChargeSpeedDisagrees | src/engine/units/modifiers/UnitAbilityModifiers.ts:14-34 | the charge class's speed 4 differs from the table's 5, while the other two classes agree with the table everywhere |
| CommandData.NewCommand | src/engine/units/commands/baseCommand.ts:13 | a new command carries its order, is pending and is not yet delivered |
| CommandData.Start | src/engine/units/commands/baseCommand.ts:18-20 | starting sets the status to running and keeps the order |
| CommandData.InitUnitCommand | src/engine/units/commands/index.ts:20-36 | attack, ability attack, move, formation change and delivery build a pending command of that type; every other tag fails |
| CommandData.CreateUnitCommand | src/engine/units/commands/index.ts:38-42 | a built command keeps the stored order and takes the stored status, possibly absent |
| CommandData.GetState | src/engine/units/commands/attackCommand.ts:68-73 | the serialized command keeps the order; attack drops its status, every other type keeps it |
| CommandData.StateRoundTrip | src/engine/units/commands/index.ts:20-42 | rebuilding a buildable command from its serialized form gives it back, less the delivered flag and, for attack, the status |
| CommandData.GetCommands | src/engine/units/baseUnit.ts:345-347 | the stored records are rebuilt one for one, in order; a single unbuildable record makes the whole call fail |
| CommandData.FirstCommand | src/engine/units/baseUnit.ts:345-347 | the head of the rebuilt queue, absent for an empty queue, failing exactly when the rebuild fails |
| TimedCommands.StartCommand | src/engine/units/commands/baseCommand.ts:18-21 | the command becomes running with its order kept, and the unit is queued for sync unchanged |
| TimedCommands.StartFromNew | src/engine/units/commands/baseCommand.ts:13-21 | a new command is not yet running, and starting twice is starting once |
| TimedCommands.FormationEstimate | src/engine/units/commands/changeFormationCommand.ts:32-38 | the estimate is the time left of the 60 game seconds, and it is used up exactly when the change is finished |
| TimedCommands.FormationUpdate | src/engine/units/commands/changeFormationCommand.ts:25-30 | the clock advances by the tick; the unit takes the new formation only once 60 seconds have elapsed, and is untouched before |
| TimedCommands.FormationRunDelays | src/engine/units/commands/changeFormationCommand.ts:25-34 | over a run of non-negative ticks the clock advances by their sum; the unit keeps its formation while the sum stays below 60 seconds and has the new one afterwards |
| TimedCommands.RetreatEstimate | src/engine/units/commands/retreatCommand.ts:30-36 | the time left of the 24 hours, never negative, zero exactly when the retreat is finished |
| TimedCommands.RetreatFinishedIff | src/engine/units/commands/retreatCommand.ts:30-32 | the clamped countdown is finished exactly when 24 hours have elapsed |
| TimedCommands.RetreatUpdate | src/engine/units/commands/retreatCommand.ts:21-28 | the clock advances by the tick; the unit is on timeout exactly while less than 24 hours have elapsed, and is queued for sync |
| TimedCommands.WaitEstimate | src/engine/units/commands/waitCommand.ts:26-32 | the estimate is the wait left, at or below zero exactly when the wait is finished |
| TimedCommands.WaitUpdate | src/engine/units/commands/waitCommand.ts:22-24 | only the clock advances; the unit is untouched and nothing is queued |
| TimedCommands.WaitStaysFinished | src/engine/units/commands/waitCommand.ts:22-28 | a zero wait is finished at once, and a finished wait stays finished under non-negative ticks |
| AttackCommands.Found | src/engine/units/commands/attackCommand.ts:45-47 | the listed ids that name a registered unit, each resolved to that unit, no id missed; distinct ids give distinct units |
| AttackCommands.FoundConsDistinct | src/engine/units/commands/attackCommand.ts:45-47 | a unit for a fresh id put before units for the remaining ids keeps the ids distinct |
| AttackCommands.ActiveTargets | src/engine/units/commands/attackCommand.ts:44-53 | exactly the registered listed units that are alive and within the attacker's range, on the boundary included, in list order |
| AttackCommands.PriorityTargets | src/engine/units/commands/attackCommand.ts:55-67 | at most three of the active targets, nearest first, no active target left out is nearer than one kept, and among targets at one distance the earlier listed are the ones kept, in list order |
| AttackCommands.AttackFinishedIff | src/engine/units/commands/attackCommand.ts:37-39 | an attack is finished exactly when no listed id names a live unit in range |
| AttackCommands.AttackShare | src/engine/units/commands/attackCommand.ts:29-30 | the shares of the targets add up to damage x hp fraction x modifier per game hour, times the tick |
| AttackCommands.AttackTotalIndependentOfCount | src/engine/units/commands/attackCommand.ts:30 | the total handed out does not depend on how many targets share it |
| AttackCommands.DamageAll | src/engine/units/commands/attackCommand.ts:32-34 | corrected: hitting targets in turn keeps the removal queue, the pending frames and every queued id |
| AttackCommands.DamageAllEffect | src/engine/units/commands/attackCommand.ts:32-34 | corrected: each distinct listed unit takes the amount once and is queued for sync; units not listed are untouched and none appears or vanishes |
| AttackCommands.AttackUpdate | src/engine/units/commands/attackCommand.ts:23-35 | corrected: a finished attack changes nothing; an update never touches the removal queue or pending frames |
| AttackCommands.PriorityTargetsRegistered | src/engine/units/commands/attackCommand.ts:44-67 | every priority target is the registered unit under its id, alive and in range |
| AttackCommands.SharedDamageEffect | src/engine/units/commands/attackCommand.ts:32-34 | corrected: distinct registered units each take the amount once and are queued; every other unit is untouched |
| AttackCommands.AttackUpdateEffect | src/engine/units/commands/attackCommand.ts:23-35 | corrected: one update damages every priority target once by the equal share, queues it for sync, and changes no other unit; for targets whose kind declares `defense` the new hp is the one the code as written computes |
| AttackCommands.AbilityShare | src/engine/units/commands/abilityAttackCommand.ts:32 | corrected: the shares add up to damage x modifier per game hour, times the tick |
| AttackCommands.AbilityAttackUpdate | src/engine/units/commands/abilityAttackCommand.ts:26-37 | corrected: a finished attack changes nothing; an update never touches the removal queue or pending frames |
| AttackCommands.AbilityAttackUpdateEffect | src/engine/units/commands/abilityAttackCommand.ts:26-37 | corrected: one update damages every priority target once by the equal share and changes no other unit |
| AttackCommands.ToInt32 | src/engine/units/commands/abilityAttackCommand.ts:32 | the operands of `&` are truncated into the signed 32-bit range, and small non-negative values truncate to their floor |
| AttackCommands.BitAnd32 | src/engine/units/commands/abilityAttackCommand.ts:32 | the bitwise and of two signed 32-bit values is a signed 32-bit value |
| AttackCommands.BitAndZero | src/engine/units/commands/abilityAttackCommand.ts:32 | zero and anything is zero |
| AttackCommands.TruncatedRateIsZero | src/engine/units/commands/abilityAttackCommand.ts:32 | as written, a per-second rate below 1 truncates to 0, so its `&` with any tick and the share are 0 |
| AttackCommands.AbilityShareAsWrittenIsZero | src/engine/units/commands/abilityAttackCommand.ts:32 | as written, a unit whose damage x modifier is below 3600 deals no damage at all |
| AttackCommands.AbilitySharePositive | src/engine/units/commands/abilityAttackCommand.ts:32 | corrected: a positive rate over a positive tick gives every target a positive share |
| DeliveryCommands.NoticesFor | src/engine/units/commands/deliveryCommand.ts:29 | one `messenger_delivery` notice per message, in order, each carrying that message's id and the world time |
| DeliveryCommands.MessageIds | src/engine/units/commands/deliveryCommand.ts:27 | the ids of the carried messages, in order |
| DeliveryCommands.LinkAllUnfolds | src/engine/units/commands/deliveryCommand.ts:27-33 | linking a list of messages is linking the first and then the rest |
| DeliveryCommands.LinkIdsLinks | src/engine/units/baseUnit.ts:366-372 | after linking, exactly the earlier links and the new ids are linked, the earlier ones first and in order, and no id is linked twice |
| DeliveryCommands.LinkAllLinks | src/engine/units/commands/deliveryCommand.ts:27-33 | a target ends up linked to exactly its earlier messages and the delivered ones, earlier links kept in order, without duplicates |
| DeliveryCommands.LinkIdsKnown | src/engine/units/baseUnit.ts:366-372 | linking ids that are all linked already changes nothing |
| DeliveryCommands.LinkAllIdempotent | src/engine/units/commands/deliveryCommand.ts:27-33 | delivering the same messages twice links nothing more |
| DeliveryCommands.DeliverTo | src/engine/units/commands/deliveryCommand.ts:25-33 | one target: a general that exists is sent a notice per message, any other target none; the target emits one `unit` change per message it did not yet hold; the removal queue is untouched |
| DeliveryCommands.LinkChangesCount | src/engine/units/baseUnit.ts:366-372 | linking ids in turn emits one `unit` change per id it adds and no other change |
| DeliveryCommands.RedeliveryQuiet | src/engine/units/commands/deliveryCommand.ts:25-33 | handing a target messages it already holds emits no change |
| DeliveryCommands.DeliverToEffect | src/engine/units/commands/deliveryCommand.ts:25-33 | one target: a missing target is skipped; a found one ends up with every message linked and, if there were messages, queued for sync; no other unit changes |
| DeliveryCommands.Deliver | src/engine/units/commands/deliveryCommand.ts:24-34 | the loop over targets never touches the removal queue, and every change it emits has the reason `unit` |
| DeliveryCommands.ExpectedNoticesAgree | src/engine/units/commands/deliveryCommand.ts:28-30 | which notices are owed depends only on which targets are generals |
| DeliveryCommands.DeliverEffect | src/engine/units/commands/deliveryCommand.ts:24-34 | the notices are each message once per listed general, in target order; every found target holds every message and is queued; missing targets stay missing; every other unit is untouched |
| DeliveryCommands.DeliveryEstimate | src/engine/units/commands/deliveryCommand.ts:43-45 | the estimate is always one second |
| DeliveryCommands.DeliveryUpdate | src/engine/units/commands/deliveryCommand.ts:23-41 | after the update the command is finished, the messenger is gone and its id is queued as a local removal; the changes emitted by linking all have the reason `unit` |
| DeliveryCommands.DeliveryFinishesOnce | src/engine/units/commands/deliveryCommand.ts:14-41 | a new delivery is not finished and one update finishes it |
| DeliveryCommands.DeliveryUpdateEffect | src/engine/units/commands/deliveryCommand.ts:23-37 | the notices are the owed ones; every found target other than the messenger holds each carried message; units neither targeted nor the messenger are unchanged |
| MoveCommands.LexLessStrictTotal | src/engine/units/commands/moveCommand.ts:93 | the string order the column rule uses is irreflexive and, for two different strings, puts exactly one first |
| MoveCommands.LexLessIsNotPrefixOrder | src/engine/units/commands/moveCommand.ts:93 | the order is lexicographic, not the prefix order: `"a"` is before `"b"` though neither is a prefix of the other |
| MoveCommands.ModifierEnv | src/engine/units/commands/moveCommand.ts:36-40 | the order's terrain alone, or no terrain when the order has none |
| MoveCommands.ActivatedAbility | src/engine/units/commands/moveCommand.ts:42-48 | corrected: no ability is active exactly when the kind has none of the listed ones; an active one is listed and the kind has it |
| MoveCommands.ActivatedIsLast | src/engine/units/commands/moveCommand.ts:44-48 | corrected: the ability left active is the last listed one the kind has |
| MoveCommands.Prepared | src/engine/units/commands/moveCommand.ts:36-48 | corrected: the unit takes the order's terrain and ability and nothing else changes |
| MoveCommands.Ceil | src/engine/units/commands/moveCommand.ts:141 | rounding up gives the integer at or above the value and less than one above it |
| MoveCommands.MoveEstimate | src/engine/units/commands/moveCommand.ts:115-142 | the game seconds to the target at the speed the order's terrain and ability give, rounded up; no finite estimate exactly when that speed is zero |
| MoveCommands.EstimateIgnoresCurrentState | src/engine/units/commands/moveCommand.ts:115-135 | the estimate does not depend on the terrain and ability the unit currently has, which are restored afterwards |
| MoveCommands.Neighbours | src/engine/units/commands/moveCommand.ts:65-73 | exactly the other units within 30 pixels, dead ones included |
| MoveCommands.NoMutualBlock | src/engine/units/commands/moveCommand.ts:82-103 | two units never make each other wait |
| MoveCommands.Scan | src/engine/units/commands/moveCommand.ts:79-106 | the scan stops at the first neighbour that blocks; when every queue can be rebuilt it reports "free" exactly when none blocks; it fails only on an unbuildable queue |
| MoveCommands.CanMove | src/engine/units/commands/moveCommand.ts:64-107 | a unit with no neighbour may move; a unit told to wait has a near neighbour whose first order blocks its own |
| MoveCommands.CanMoveAlone | src/engine/units/commands/moveCommand.ts:75 | with no unit within 30 pixels the move proceeds, whatever the queues hold |
| MoveCommands.NoNeighbours | src/engine/units/commands/moveCommand.ts:67-75 | no other unit within range means the neighbour list is empty |
| MoveCommands.CanMoveIff | src/engine/units/commands/moveCommand.ts:64-107 | when every queue can be rebuilt, the unit may move exactly when no neighbour's first order blocks its own |
| MoveCommands.ColumnMateBlocks | src/engine/units/commands/moveCommand.ts:99-102 | a unit behind a near column-mate, by order index, waits for it |
| MoveCommands.StepToward | src/engine/units/commands/moveCommand.ts:57-60 | away from the target the step has exactly the given length |
| MoveCommands.StepLength | src/engine/units/commands/moveCommand.ts:58-59 | the offset divided by its length and scaled by the speed has that speed as its length |
| MoveCommands.Advance | src/engine/units/commands/moveCommand.ts:36-61 | corrected: a free unit takes the order's terrain and ability before it moves |
| MoveCommands.MoveUpdate | src/engine/units/commands/moveCommand.ts:27-62 | corrected: an arrived unit and a waiting one change nothing; the update fails exactly when a queue cannot be rebuilt; a free unit advances |
| MoveCommands.UnfinishedIsFar | src/engine/units/commands/moveCommand.ts:109-113 | a unit that has not arrived is more than 1 pixel from the target |
| MoveCommands.AdvanceSteps | src/engine/units/commands/moveCommand.ts:50-61 | corrected: the advance lands on the target when the estimate fits in the tick; otherwise it is a step of exactly one tick's speed |
| MoveCommands.MoveUpdateAsWritten | src/engine/units/commands/moveCommand.ts:27-48 | as written: an arrived or waiting unit is unchanged, an unbuildable queue throws, and a unit free to move throws a TypeError at the missing `activateAbility`, so the update never moves a unit |
| MoveCommands.FreeUnitThrowsAsWritten | src/engine/units/commands/moveCommand.ts:43 | the as-written and corrected updates differ exactly on a unit free to move, where the first throws and the second succeeds |
| MoveCommands.MoveLandsOnTarget | src/engine/units/commands/moveCommand.ts:27-62 | corrected: when the estimate fits in the tick and the target is on the map, a free unit lands exactly on the target and never overshoots |
| Piecewise.FallsSound | src/engine/units/enums/UnitDistanceModifier.ts:8-52 | the row-by-row check of a table establishes that its keys ascend and its values never rise |
| Piecewise.FindBracket | src/engine/units/enums/UnitDistanceModifier.ts:67-75 | the scan returns the first pair of rows that brackets the argument, or reports that none does |
| Piecewise.Lookup | src/engine/units/enums/UnitDistanceModifier.ts:54-78 | at or below the first key the first value; at or above the last key the last value |
| Piecewise.InterpBetween | src/engine/units/enums/UnitDistanceModifier.ts:72-73 | inside a segment the interpolated value lies between the two rows' values |
| Piecewise.InterpEnds | src/engine/units/enums/UnitDistanceModifier.ts:72-73 | at either end of a segment the interpolation gives exactly that row's value |
| Piecewise.InterpMonotone | src/engine/units/enums/UnitDistanceModifier.ts:72-73 | on a falling segment a larger argument never gives a larger value |
| Piecewise.BracketExists | src/engine/units/enums/UnitDistanceModifier.ts:67-77 | with ascending keys, an argument below the last key is bracketed by some later pair |
| Piecewise.FallbackUnreachable | src/engine/units/enums/UnitDistanceModifier.ts:77 | with ascending keys the fallback `return 1` is never reached |
| Piecewise.LookupInBracket | src/engine/units/enums/UnitDistanceModifier.ts:66-75 | whichever pair brackets the argument, the result is the interpolation between those two rows |
| Piecewise.LookupAtBreakpoint | src/engine/units/enums/UnitDistanceModifier.ts:54-75 | at every breakpoint the result is exactly that row's value, so the lookup is continuous |
| Piecewise.LookupBounds | src/engine/units/enums/UnitDistanceModifier.ts:54-78 | for a falling table every result lies between the last and the first value |
| Piecewise.LookupMonotone | src/engine/units/enums/UnitDistanceModifier.ts:54-78 | for a falling table the result never increases with the argument |
| DistanceModifier.GetUnitDistanceModifier | src/engine/units/enums/UnitDistanceModifier.ts:54-78 | the first row's value up to its distance, the last row's from its distance on, the interpolation of any bracketing pair in between, and for a falling table a value between the last and first |
| DistanceModifier.DirectTableFalls | src/engine/units/enums/UnitDistanceModifier.ts:8-20 | the direct-fire table's distances ascend and its multipliers never rise |
| DistanceModifier.ArtilleryTableFalls | src/engine/units/enums/UnitDistanceModifier.ts:22-52 | the artillery table's distances ascend and its multipliers never rise |
| DistanceModifier.ShippedTablesFall | src/engine/units/enums/UnitDistanceModifier.ts:8-52 | both shipped tables ascend in distance and fall in multiplier |
| DistanceModifier.ShippedTablesMonotone | src/engine/units/enums/UnitDistanceModifier.ts:8-78 | with either shipped table a farther target never takes a larger multiplier |
| DistanceModifier.DirectTableBounded | src/engine/units/enums/UnitDistanceModifier.ts:8-20 | the direct-fire multiplier always lies in [0.11, 1.6] |
| DistanceModifier.ArtilleryTableBounded | src/engine/units/enums/UnitDistanceModifier.ts:22-52 | the artillery multiplier always lies in [0.03, 1.5] |
| HeightModifier.GetAngle | src/engine/units/modifiers/UnitHeightModifier.ts:39-52 | the angle is never negative and is 0 at zero distance |
| HeightModifier.AngleSymmetric | src/engine/units/modifiers/UnitHeightModifier.ts:48-51 | uphill and downhill shots over the same slope get the same angle |
| HeightModifier.AngleTableFalls | src/engine/units/modifiers/UnitHeightModifier.ts:14-19 | the angle table ascends in angle and falls in multiplier |
| HeightModifier.GetDamageModifier | src/engine/units/modifiers/UnitHeightModifier.ts:62-85 | 1.0 at or below 0 degrees, 0.6 at or above 15, the interpolation of the bracketing rows in between, always within [0.6, 1.0] |
| HeightModifier.DamageModifierMonotone | src/engine/units/modifiers/UnitHeightModifier.ts:62-85 | a steeper angle never gives a larger multiplier |
| HeightModifier.GetDamageModifierByHeights | src/engine/units/modifiers/UnitHeightModifier.ts:94-101 | the multiplier of the angle between the two heights, the same either way round, within [0.6, 1.0], and 1.0 on flat ground or at zero distance |
| Sorting.Insert | src/engine/units/commands/attackCommand.ts:57-64 | inserting into a sorted list keeps it sorted, adds exactly the element and keeps the others |
| Sorting.SortBy | src/engine/units/commands/attackCommand.ts:57-64 | the sorted list is a permutation of the input, ascending by the key |
| Sorting.SortByStable | src/engine/units/commands/attackCommand.ts:57-64 | the sort is stable: the elements sharing one key keep their input order |
| Sorting.FirstWith | src/engine/world/unitregistry.ts:106-114 | the scan finds nothing exactly when no element qualifies; otherwise the first qualifying element |
| Sorting.Best | src/engine/world/unitregistry.ts:100-117 | the reference: a qualifying element whose key is least, the earliest of those, or nothing when none qualifies |
| Sorting.FirstWithInsert | src/engine/world/unitregistry.ts:100-117 | inserting an element into a sorted list changes the first qualifying element only when the new one beats it |
| Sorting.FirstOfSortedIsBest | src/engine/world/unitregistry.ts:100-117 | the first qualifying element of the stably sorted list is the earliest qualifying element with the least key |
| Sorting.TakeSmallest | src/engine/units/commands/attackCommand.ts:55-66 | at most `n` elements of the input, ascending, no element left out has a smaller key than one kept, and of the elements sharing a key the kept ones are the earliest, in input order |
| Sorting.SplitSorted | src/engine/units/commands/attackCommand.ts:65 | cutting a sorted list leaves a sorted prefix whose keys are all at most those of the rest |
| ContextCommands.PickRadius | src/engine/input/unitContextCommands.ts:13-15 | 15 times the unit-size setting, 15 when the setting is absent |
| ContextCommands.CountNear | src/engine/input/unitContextCommands.ts:17-30 | the count of units near the point never exceeds the number of units |
| ContextCommands.CountUnitsAt | src/engine/input/unitContextCommands.ts:17-30 | the loop counts exactly the units, dead ones included, whose squared distance is at most the squared radius |
| ContextCommands.CountNearMonotone | src/engine/input/unitContextCommands.ts:17-30 | a larger radius never counts fewer units |
| ContextCommands.CountNearAll | src/engine/input/unitContextCommands.ts:17-30 | when every unit is within the radius, every unit is counted |
| ContextCommands.SameTeam | src/engine/input/unitContextCommands.ts:32-37 | true exactly when the selection is non-empty and all selected units share one team |
| ContextCommands.AllMessengers | src/engine/input/unitContextCommands.ts:39-43 | true exactly when the selection is non-empty and every selected unit is a messenger |
| ContextCommands.AnyCanHit | src/engine/input/unitContextCommands.ts:53-60 | the loop finds a hitter exactly when some selected unit is alive, not on timeout, of another team and has the target in range |
| ContextCommands.CanAnySelectedAttack | src/engine/input/unitContextCommands.ts:45-61 | true exactly when the selection is non-empty, the target is alive and not on timeout, not every selected unit is a messenger, and some selected unit can hit the target |
| ContextCommands.NoFriendlyAttack | src/engine/input/unitContextCommands.ts:45-61 | a one-team selection can never attack a unit of its own team |
| UnitLayer.UnitMoves | src/engine/render/unitlayer.ts:289-292 | exactly the move states of the unit's move commands; other commands are skipped |
| UnitLayer.AllMoves | src/engine/render/unitlayer.ts:288-289 | exactly the move states of every unit's commands |
| UnitLayer.Ranges | src/engine/render/unitlayer.ts:287-310 | one column per unique id that occurs, each holding the least and greatest order index attained in it |
| UnitLayer.CalcMoveOrderIndex | src/engine/render/unitlayer.ts:281-313 | it throws exactly when some unit holds a command that cannot be rebuilt; otherwise the columns are exactly the unique ids on current move commands, each with its attained minimum and maximum, so no stale column remains |
| UnitLayer.ArrowsAtColumnEnds | src/engine/render/unitlayer.ts:335-341 | every column gets an arrow at its lowest and at its highest command, and a command strictly inside its column gets none |
| UnitLayer.ChannelBetween | src/engine/render/unitlayer.ts:40-42 | each rounded colour channel stays between its red and green ends |
| UnitLayer.HpGradientColor | src/engine/render/unitlayer.ts:29-45 | at 5% or less, after clamping and rounding, the bar is `#ef4444`; every colour lies in the red-to-green box; full health is pure green |
| UnitLayer.RedFallsWithHealth | src/engine/render/unitlayer.ts:38-40 | above 5%, more health never makes the bar redder |
| HeightMap.LegendShape | src/engine/assets/heightmap.ts:39-91 | the legend has 40 colours whose heights strictly fall, from 232 down to 139 metres |
| HeightMap.Backwards | src/engine/assets/heightmap.ts:96 | a legend's heights read backwards, which rise strictly when the legend's fall strictly |
| HeightMap.Ascending | src/engine/assets/heightmap.ts:96 | the numeric sort of the legend heights is the legend read backwards, strictly rising, 40 long |
| HeightMap.RisingIsIncreasing | src/engine/assets/heightmap.ts:96 | a sequence that rises at every step is strictly increasing |
| HeightMap.FallbackIsMedian | src/engine/assets/heightmap.ts:95-99 | the fallback height 175.5 is the median of the legend heights, above the lower twenty and below the upper twenty |
| HeightMap.FirstNearest | src/engine/assets/heightmap.ts:120-129 | the scan settles on a colour no farther than any other, and the first of equally near ones |
| HeightMap.HeightByColor | src/engine/assets/heightmap.ts:114-132 | a height exactly when some legend colour is within 35; it is then the height of the nearest colour, the first of ties |
| HeightMap.ExactColourHeight | src/engine/assets/heightmap.ts:114-132 | in a legend of distinct colours an exact legend colour reads as its own height |
| HeightMap.ReadPixelHeight | src/engine/assets/heightmap.ts:136-159 | the fallback off the image and for a nearly transparent pixel; otherwise a legend height or the fallback |
| HeightMap.LerpBetween | src/engine/assets/heightmap.ts:203-206 | interpolation between two heights stays between them |
| HeightMap.GetHeightAt | src/engine/assets/heightmap.ts:179-207 | the fallback when `x < 0`, `y < 0`, `x >= width - 1` or `y >= height - 1`; otherwise between the lowest and highest of the four surrounding pixels, and the pixel's own height at whole coordinates |
| HeightMap.Blend | src/engine/assets/heightmap.ts:195-206 | the blend of the four corner heights lies between the lowest and highest, and is the lower-left corner at whole coordinates |
| HeightMap.BilinearBetween | src/engine/assets/heightmap.ts:203-206 | a bilinear blend with weights in [0, 1] lies between the least and greatest of its four values |
| HeightMap.PixelWithin | src/engine/assets/heightmap.ts:136-159 | when every legend height and the fallback are within bounds, so is every pixel height |
| HeightMap.SampleWithin | src/engine/assets/heightmap.ts:179-207 | when every legend height and the fallback are within bounds, so is every sampled height |
| HeightMap.SampledHeightInRange | src/engine/assets/heightmap.ts:39-207 | every height the sampler returns lies between 139 and 232 metres |
| Vision.PointInPolygon | src/engine/render/unitlayer/visionlayer.ts:220-235 | the point is inside exactly when an odd number of polygon edges cross the horizontal ray to its right; an empty polygon contains nothing |
| Vision.HorizontalEdgeNeverCrosses | src/engine/render/unitlayer/visionlayer.ts:227-229 | an edge whose ends have the same height never toggles the inside flag |
| Vision.AboveIsOutside | src/engine/render/unitlayer/visionlayer.ts:220-235 | a point above every vertex has no crossings, so it is outside |
| Vision.LeftEdgeNeverCrosses | src/engine/render/unitlayer/visionlayer.ts:227-229 | an edge lying wholly to the left of the point never counts as a crossing |
| Vision.RightIsOutside | src/engine/render/unitlayer/visionlayer.ts:220-235 | a point to the right of every vertex has no crossings, so it is outside |
| Vision.March | src/engine/render/unitlayer/visionlayer.ts:42-57 | the march stops on its own ray, with a weighted distance at least the true one, once the weighted distance reaches the range or forest is met past half of it, at most one step past the range |
| Vision.CastRay | src/engine/render/unitlayer/visionlayer.ts:25-60 | a non-positive range returns the origin; otherwise the end point lies on the ray where the weighted distance reaches the range or forest is met past half the range, never more than one step beyond the range |
| Vision.OpenGroundRay | src/engine/render/unitlayer/visionlayer.ts:42-57 | without a forest mask the ray takes exactly the first whole number of steps covering the range |
| Vision.RayLeavesOrigin | src/engine/render/unitlayer/visionlayer.ts:37-57 | with a positive range the first step is always taken, even from inside a forest |
| Vision.BuildVisionPolygon | src/engine/render/unitlayer/visionlayer.ts:62-75 | the polygon has 180 vertices, vertex i being the end of the ray cast in direction i |
| Vision.PolygonOnRays | src/engine/render/unitlayer/visionlayer.ts:62-75 | every vertex lies on its own ray, a whole number of steps from the origin and at most one step past the range |
| Vision.CacheKey | src/engine/render/unitlayer/visionlayer.ts:175-176 | the key is the unit id, an underscore, then the forest flag spelt out |
| Vision.KeyIsNotId | src/engine/render/unitlayer/visionlayer.ts:138 | no cache key equals a bare unit id |
| Vision.CacheKeyInjective | src/engine/render/unitlayer/visionlayer.ts:176 | for ids without an underscore, equal keys come from the same id and the same forest flag |
| Vision.LookupOrBuild | src/engine/render/unitlayer/visionlayer.ts:177-189 | the polygon is rebuilt and stored exactly when the key is missing or the stored position differs; otherwise the stored polygon is returned and the cache is unchanged |
| Vision.CacheHitAfterBuild | src/engine/render/unitlayer/visionlayer.ts:181-189 | a second lookup at the same position returns the stored polygon and never rebuilds |
| Vision.VisionStepAsWritten | src/engine/render/unitlayer/visionlayer.ts:136-189 | the eviction for a blind unit, and in circle mode, deletes the bare unit id, and a skipped unit leaves the cache as it was |
| Vision.BlindKeepsEntriesAsWritten | src/engine/render/unitlayer/visionlayer.ts:137-140 | a blind unit's cached polygons survive the eviction as written |
| Vision.VisionStep | src/engine/render/unitlayer/visionlayer.ts:136-189 | a blind unit draws nothing and has no cached polygon afterwards; a skipped unit leaves the cache alone; circle mode draws the range circle and evicts the unit's polygons; raycast mode draws the cached or rebuilt polygon; entries of other units are untouched |
| Vision.DrawVision | src/engine/render/unitlayer/visionlayer.ts:136-209 | corrected: one drawing per unit, and cache entries that belong to none of the units are kept unchanged |
| Vision.DrawOrder | src/engine/render/unitlayer/visionlayer.ts:131-134 | the order is a permutation of the units with every selected unit after every unselected one |
| Socket.Chunks | src/api/socket.ts:77-78 | every chunk is non-empty and at most the batch size, and there are no chunks exactly when there are no messages |
| Socket.ChunksFlatten | src/api/socket.ts:77-84 | the chunks, concatenated in order, are the messages |
| Socket.ChunksCount | src/api/socket.ts:77-78 | there are ceil(n / size) chunks and every chunk but the last is full |
| Socket.SendBatched | src/api/socket.ts:74-85 | a socket that is not open sends nothing; an open one sends ceil(n / size) non-empty chunks of at most the batch size whose concatenation is the messages |
| Socket.Outbound | src/api/socket.ts:101-129 | the batch is the unit snapshots, then the dirty chats, then the cursor if any, then one removal message if any ids were removed, then the bus messages, and has exactly that length |
| Socket.OutboundOrder | src/api/socket.ts:101-129 | before the bus messages the batch is ordered by kind: units, chats, cursor, removals |
| Socket.SyncTick | src/api/socket.ts:93-135 | under the socket lock nothing changes and nothing is sent; otherwise the bus is emptied, the registries and cursor are drained into the outbound batch, and an open socket sends that batch in chunks of at most 100, while an empty batch or a closed socket sends nothing |
| Socket.SyncTickDrains | src/api/socket.ts:93-135 | after an unlocked tick the dirty units, pending removals and dirty chats are empty, and so are the cursor's frames away from localhost |
| Socket.ChangedEvents | src/engine/units/baseUnit.ts:366-372 | one `changed` event per reason collected while linking, in order |
| Socket.ApplyUnit | src/api/socket.ts:163-177 | the inbound unit fails only when it is unknown and its kind cannot be built; it never queues anything to send back |
| Socket.ApplyUnitPosition | src/api/socket.ts:163-177 | afterwards the unit exists; with frames a known unit keeps its current position and replays the interpolated frames under the remote timer; without frames, or when new, it takes the snapshot's position |
| Socket.ApplyRemovals | src/api/socket.ts:178-181 | every listed unit is gone, every other unit is unchanged, ids stay distinct, and nothing is queued for sending |
| Socket.LinkToUnits | src/api/socket.ts:184-189 | each listed unit that exists ends up linked to the message; other units and the removal queue are unchanged |
| Socket.LinkedUnitHasMessage | src/api/socket.ts:184-189 | a listed unit that exists lists the message id afterwards |
| Socket.ResetDirectView | src/api/socket.ts:209-211 | every unit loses its direct-view mark and nothing else changes |
| Socket.LastView | src/api/socket.ts:213-219 | the entry found is one of the listed entries for that id, and there is none exactly when the id is not listed |
| Socket.ApplyViews | src/api/socket.ts:213-219 | every listed unit that exists takes the position and hp of its last entry and is marked; unlisted and unknown ids change nothing |
| Socket.ApplyDirectView | src/api/socket.ts:208-219 | afterwards the same units exist, a unit is marked exactly when it is listed, and a listed unit has its last entry's position and hp |
| Socket.ApplyMessage | src/api/socket.ts:163-220 | only a unit message can throw; `set_stage` changes the stage only during planning; an inbound removal queues nothing; the socket lock is never changed |
| Socket.MarkAllRead | src/api/socket.ts:190-196 | every stored listed message becomes read, the same messages stay stored, and nothing is queued for sending |
| Socket.HandleMessages | src/api/socket.ts:158-234 | under the socket lock a non-empty batch is ignored, while an empty one still signals `ws`; unlocked, unless a message throws, the batch ends with one `changed` event whose reason is `ws` |
| Socket.ApplyAll | src/api/socket.ts:160-231 | under the socket lock nothing is applied, and the loop never changes the lock |
| Socket.HandleOne | src/api/socket.ts:158-234 | a batch of one message leaves the world, and throws, exactly as that message does |
| Socket.SetStageOnlyFromPlanning | src/api/socket.ts:204-207 | an inbound `set_stage` takes effect during planning and is ignored at any other stage |
| Socket.RemoteRemovalNotEchoed | src/api/socket.ts:178-181 | an inbound removal never adds to the outbound removal queue |
| Socket.InboundChatLinks | src/api/socket.ts:182-189 | an inbound chat is stored as received and linked to every listed unit that exists |
| Registry.BestIsFirstOfTies | src/engine/world/unitregistry.ts:100-117 | among units equally recent, the earliest registered wins: every hit unit before the chosen one was selected strictly less recently |
| Events.DeleteAbsentKeeps | src/engine/events.ts:31-38 | removing a listener the event does not have leaves the emitter as it was |
| Events.StaleDeleteHidden | src/engine/events.ts:19-24 | a stale unsubscribe deletes from a set no event is bound to any more, so no event's listeners change |
| Socket.MarkAsReadOthers | src/engine/world/messageregistry.ts:49-55 | marking one message read leaves every other message as it was |

## Left out

- Canvas drawing (the `draw` methods of the layers, compositing, the weather layers, canvas helpers): pixel output. Vision returns what a unit would draw, and the unit layer keeps only its arrow and colour decisions.
- DOM and input wiring (mouse, keyboard, the command bus, the body of the context-menu listener): event plumbing. The predicates the menu consults are modelled.
- WebSocket connect and close, `JSON.stringify`/`JSON.parse`, the REST client, the router and the app shell: foreign I/O. A send is the chunk it would carry, and `readyState` is the `open` parameter.
- `createRafInterval`, `performance.now()` and `Date.now()`: the tick is one call of `Socket.SyncTick`, and clock readings are `now` parameters.
- Asset loading (map image, textures, forest painting, `setForestMap`, `setHeightMap`): image I/O. The forest mask and the height image are given as pixel arrays.
- `world.setViewport`: it only forwards to the camera, which is modelled as `Camera.SetViewport`.
- The notification sound in `updateTime`: audio output.
- `Math.hypot` and `Math.sqrt`: every threshold test compares squared distances. Where a length is needed (the move step), the caller supplies a `dist` with `dist * dist` equal to the squared offset.
- `Math.atan`, `Math.cos`, `Math.sin` and `Math.pow(t, 0.3)`: these are function parameters. Only the facts the code relies on are assumed: `pow` is non-negative on non-negative input, and `atan` is odd where symmetry is stated.
- Floating point: numbers are exact reals. Rounding error and `Infinity` are not modelled. `NaN` is written out only where the code produces it (`takeDamage`).
- Timezone and daylight-saving behaviour of the JavaScript `Date`: the clock is a timezone-free proleptic Gregorian civil clock. An unreadable clock string becomes "Invalid Date".
- The map's metres per pixel is taken to be positive: every map supplies a positive scale, and a zero scale would divide by zero in the move and vision code.
- Morale checks, ammunition use, artillery area damage, distance and height modifiers inside the attack, and battle-log entries: none of these is implemented in the code modelled here.
- The time-of-day, weather and ability multiplier tables: no stat getter reads them. Only the ability classes' multipliers are modelled (`Abilities.GetStatMultiplier`).
- Stat and multiplier tables are transcribed as constants. The environment table is the one `baseUnit.ts` imports (`enums/UnitEnvModifiers.ts`), evaluated with the per-kind override rule.
- The wait and retreat commands exist as state machines (`TimedCommands.WaitUpdate`, `TimedCommands.RetreatUpdate`), but the command factory cannot build them. `CommandData.InitUnitCommand` fails on both, as the code does.
- The `paint` inbound message is commented out in the code, so it changes nothing here.
- HeightMap.ExactColourHeight: it takes pairwise-distinct legend colours as a hypothesis. It does not prove that the 40 shipped colours are distinct, because that concrete fact costs 780 comparisons for no behavioural gain.
- HeightModifier.GetDamageModifierByHeights: the uphill and downhill symmetry holds only when the supplied arctangent is odd, as `Math.atan` is.
- Vision.DrawVision: the circle mode's circle is returned in world coordinates. The camera transform and zoom, which only place the drawing on screen, are left out.
- Vision.DrawVision: it composes the corrected `Vision.VisionStep`, so a blind unit's cached polygons are evicted. The code as written keeps them (see Findings; `Vision.VisionStepAsWritten` is that behaviour).
- AttackCommands.DamageAll: it applies the corrected `Units.TakeDamage`, so cavalry, general and messenger targets keep a finite hp where the code as written leaves `NaN` (see Findings).
- AttackCommands.DamageAllEffect: it states the corrected `Units.TakeDamage` result, not the `NaN` hp the code gives targets without `defense`.
- AttackCommands.AttackUpdate: it composes the corrected `Units.TakeDamage`; targets without `defense` are not given the `NaN` hp of the code as written.
- AttackCommands.SharedDamageEffect: it states the corrected `Units.TakeDamage` result, not the `NaN` hp the code gives targets without `defense`.
- AttackCommands.AttackUpdateEffect: it states the corrected `Units.TakeDamage` result; it agrees with the code as written only for targets whose kind declares `defense`, which it also states.
- AttackCommands.AbilityAttackUpdateEffect: it states two corrections. Each target takes the corrected share `AttackCommands.AbilityShare`, the product the plain attack uses, where abilityAttackCommand.ts:32 applies `& dt` and truncates a rate below 1 to 0 (`AttackCommands.AbilityShareAsWrittenIsZero`). Each target also takes the corrected `Units.TakeDamage`, not the `NaN` hp the code gives kinds without `defense` (see Findings).
- MoveCommands.ActivatedAbility: it is the ability choice the update evidently intends, the one `estimate` makes. The update as written throws before choosing (see Findings).
- MoveCommands.ActivatedIsLast: it describes the intended ability choice; the update as written throws before any ability is chosen.
- MoveCommands.Prepared: it is the intended preparation; the update as written throws after assigning the terrain and before setting the ability.
- MoveCommands.Advance: it is the intended move of a free unit; the update as written throws before moving (`MoveCommands.MoveUpdateAsWritten`).
- MoveCommands.MoveUpdate: it is the corrected update; for a free unit away from its target the code as written throws a TypeError instead of returning.
- MoveCommands.AdvanceSteps: it describes the intended step, which the update as written never reaches.
- MoveCommands.MoveLandsOnTarget: it describes the intended landing, which the update as written never reaches.
- MoveCommands.MoveUpdateAsWritten: the failure carries no unit, so the terrain the code assigns before the throw, which stays on the unit, is not represented.
- DeliveryCommands.DeliverTo: the `changed` reasons and the `messenger_delivery` notices are returned as two sequences; how they interleave on the event bus is not represented.
- Units.Merge: it keeps the unit's kind even when the snapshot carries another `type`, which `Object.assign` would overwrite. The kind fixes both the unit's class (its stats and abilities) and its wire tag, so the model cannot represent an object of one class carrying another class's tag.
- DeliveryCommands.DeliveryUpdate: as for `DeliverTo`, the changes and the notices are two separate sequences, without their interleaving.

## Where the code disagrees with itself

In each case below the model follows the code.

- Charge speed: the ability table in `modifiers/UnitAbilityModifiers.ts` gives 5, but `ChargeAbility` returns 4. The model uses 4, and `Abilities.ChargeSpeedDisagrees` records the difference.
- The environment table: `baseUnit.ts` imports `enums/UnitEnvModifiers.ts`, not `modifiers/UnitEnvModifiers.ts`. The model transcribes the imported one.
- The stat getters apply only the environment and formation multipliers. The time, weather and ability tables are never applied to them.
- Cavalry's default formation: the cavalry constructor falls back to `FormationType.OnHorse`, which `types.ts` does not declare, so the fallback is `undefined`. The model gives such a unit no formation, which serializes as absent and has formation multiplier 1.

## Findings

| source | as written | input that shows it | evidently intended | confidence | as-written member | corrected member |
|---|---|---|---|---|---|---|
| src/engine/units/baseUnit.ts:147-153 | `hp -= amount * this.defense`, but cavalry, generals and messengers declare no `defense` | a cavalry unit at full hp hit for 0 damage | the damage factor falls back to `takeDamageMod`, which is 1 for those kinds, so hp stays 64 | not executed | Units.TakeDamageKillsCavalry | Units.TakeDamage |
| src/engine/units/commands/abilityAttackCommand.ts:32 | `(damage * modifier / 3600 & dt)`: a 32-bit bitwise and, not a product | any unit whose damage times modifier is below 3600, e.g. damage 64 and modifier 1 | `damage * modifier / 3600 * dt`, split equally among the targets | not executed | AttackCommands.AbilityShareAsWrittenIsZero | AttackCommands.AbilitySharePositive |
| src/engine/events.ts:19-24 | the unsubscribe closure deletes from the set it captured, and drops the event key whenever that set is empty | `u = on(e, f)`, `off(e, f)`, `on(e, g)`, then `u()` | `u()` removes only `f`, and leaves `g` registered | not executed | Events.StaleUnsubscribeDropsListener | Events.UnsubscribeRemoves |
| src/engine/units/commands/moveCommand.ts:43 | `unit.activateAbility(null)`, a method no unit class defines | a unit with a move order, away from its target, with no unit within 30 pixels | set the active ability directly, as `estimate` does at lines 126-131, then move | not executed | MoveCommands.MoveUpdateAsWritten | MoveCommands.MoveUpdate |
| src/engine/render/unitlayer/visionlayer.ts:138 | the cache is evicted by the bare unit id, but entries are keyed `${id}_${inForest}` | a unit with a cached polygon that is then killed | both of the unit's keys are evicted | not executed | Vision.BlindKeepsEntriesAsWritten | Vision.VisionStep |
