# Olive timeline ghost engine, in Dafny

This project models the edit engine of Olive's timeline widget (`ui/timelinewidget.cpp`). A gesture on the timeline does not touch the clips directly. It first creates **ghosts**, which are proposed in/out/track/clip_in values for the clips being moved or trimmed, or for the media being imported. Each ghost carries a snapshot (`old_*`) of where it started.

On every pointer motion the widget turns the pointer's offset from the gesture's start into one frame delta (and, for moves, one track delta). It passes that delta through a chain of clamps (minimum length, frame 0, clip_in, media length, ripple collisions, track polarity) and the snap resolver, ghost by ghost. It then writes the result back onto every ghost and selection. On release (or drop) the ghosts are committed to the clip store, and every gesture flag is reset.

The model is functional. Clips, ghosts and selections are immutable records in sequences. Each handler is a pure function from the editor state to the next editor state. The clip store is a sequence of optional clips: a clip's handle is its index, and a deleted clip leaves an empty slot. This way a handle held by a ghost keeps naming the same clip through the multi-pass commit. Frames and tracks are unbounded integers. Negative tracks are video and non-negative tracks are audio.

Modules, in dependency order:

- `Timeline`: the data model (clip, ghost, selection, editor, tools, constants).
- `ClipStore`: the clip-store operations the commit calls (`delete_area`, moving a clip, `ripple`).
- `Snapping`: `subvalidate_snapping` and `validate_snapping`, plus a flat candidate list as a reference definition.
- `Validation`: the clamps of `update_ghosts` and the write-back of the resolved delta.
- `TrimProofs`, `MoveProofs`: properties of the trim and move branches.
- `Seeding`: `init_ghosts`, ghost creation for a move or trim, and the import layout of `dragEnterEvent`.
- `RippleCache`: the pre/post clip caches a ripple gesture builds.
- `Commit`: `mouseReleaseEvent` (move, duplicate, ripple, reset) and `dropEvent`.
- `Gesture`: `getClipIndexFromCoords`, the trim-edge hover test, range select, move set-up, and the `mouseMoveEvent` / `dragMoveEvent` dispatch.
- `Scenarios`: worked examples on concrete timelines (a move stopped at frame 0, a trim stopped at the media length, a snap to the playhead, a ripple trim on release).

## Model

| member | source | states |
|---|---|---|
| ClipStore.DeleteArea | ui/timelinewidget.cpp:207-210 | clearing an area removes only clips that overlap it and are not undeletable; locked clips and clips elsewhere are kept exactly; no slot gains a clip |
| ClipStore.RippleShift | ui/timelinewidget.cpp:243-247 | a ripple moves every clip starting at or after the point by the shift, keeping its track and length; clips before the point are untouched; no clip appears or disappears |
| Timeline.SameSign | ui/timelinewidget.cpp:32-34 | true exactly when both tracks are video (negative) or both are audio (zero or more) |
| Snapping.SnapTo | ui/timelinewidget.cpp:309-326 | one candidate: snaps exactly when the old in-edge or old out-edge shifted by the delta is within 15 frames of it; no snap leaves the delta unchanged; a snap lands the in-edge on the candidate if it is near, else the out-edge; the delta moves by less than 15 |
| Snapping.ValidateSnapping | ui/timelinewidget.cpp:328-341 | the outcome is either no snap with the delta and prior snap point kept, or an edge landing exactly on the recorded snap point after a move of less than 15 frames; with snapping off nothing changes and the snapped flag is cleared |
| Snapping.SearchClips | ui/timelinewidget.cpp:332-338 | the clip loop yields a legal snap outcome; a snap lands on an in- or out-point of a clip from the searched part of the store, and it ends unsnapped exactly when no such edge is in reach |
| Snapping.FirstReach | ui/timelinewidget.cpp:331-338 | index of the first candidate in reach: every earlier candidate is out of reach |
| Snapping.SnapAlongIsFirstReach | ui/timelinewidget.cpp:331-338 | trying candidates in order and stopping at the first snap is snapping to the first reachable candidate, or to none |
| Snapping.SnapAlongResolves | ui/timelinewidget.cpp:331-338 | the in-order search always yields a legal snap outcome |
| Snapping.SearchClipsIsSnapAlong | ui/timelinewidget.cpp:332-338 | the clip loop (each clip's in-point before its out-point, stop once snapped) is the in-order search over the list of clip edges |
| Snapping.SnapsToFirstCandidate | ui/timelinewidget.cpp:328-341 | with snapping on: snaps iff some candidate (playhead, then clip edges in store order) is within reach; then the point is the first such candidate, and the in-edge lands on it if near, else the out-edge; otherwise delta and point are unchanged |
| Validation.ClampTrim | ui/timelinewidget.cpp:356-415 | without ripple a ready ghost's dragged edge ends legal and an already legal delta is kept; with ripple every post-clip ends clear of the pre-clips on its track (and at or after 0 for the in-edge) |
| Validation.ClampTrimIn | ui/timelinewidget.cpp:356-369 | after the in-edge clamps the in-point is at or after 0 and (finite stream) clip_in is at or after 0; a delta that is already legal is kept; a ready ghost's result is legal, including length at least 1 |
| Validation.GuardPreIn | ui/timelinewidget.cpp:380-386 | only shrinks the delta, leaving the post-clip clear of every pre-clip on its track |
| Validation.RippleClampIn | ui/timelinewidget.cpp:371-388 | only shrinks the delta, leaving every post-clip at or after 0 and clear of the pre-clips on its track |
| Validation.ClampTrimOut | ui/timelinewidget.cpp:390-398 | after the out-edge clamps the length is at most the media length (finite stream) and at least 1 when the media is at least a frame long; a legal delta is kept; a ready ghost's result is legal |
| Validation.GuardPreOut | ui/timelinewidget.cpp:406-412 | only grows the delta, leaving the post-clip clear of every pre-clip on its track |
| Validation.RippleClampOut | ui/timelinewidget.cpp:400-414 | only grows the delta, leaving every post-clip clear of the pre-clips on its track |
| Validation.ValidateTrim | ui/timelinewidget.cpp:352-418 | no ghosts leave delta and snap state as they were; with snapping off nothing ends snapped |
| Validation.ResizeGhosts | ui/timelinewidget.cpp:420-430 | an in-edge trim moves in-point and clip_in by the delta from their snapshots and keeps the out-point; an out-edge trim moves only the out-point; snapshots, track and cached lengths are kept |
| Validation.ResizeSelections | ui/timelinewidget.cpp:432-441 | each selection's dragged edge is its snapshot plus the delta; nothing else changes |
| Validation.ClampMoveFrames | ui/timelinewidget.cpp:447-449 | only grows the delta, leaves the ghost at or after frame 0, and keeps a delta that already does |
| Validation.KeepPolarity | ui/timelinewidget.cpp:451-460 | the loop ends with a track delta that keeps the ghost's polarity; it is unchanged when already fine, moves only towards the boundary side the ghost is on, and otherwise lands the ghost on track -1 or 0 |
| Validation.ValidateMove | ui/timelinewidget.cpp:443-463 | no ghosts leave the deltas and snap state as they were; with snapping off nothing ends snapped |
| Validation.MoveTrack | ui/timelinewidget.cpp:471-482 | during import a ghost moves by the size of the track delta away from the polarity boundary, keeping its polarity; otherwise it follows the delta exactly when it is on the drag origin's side and stays put when not |
| Validation.MoveGhosts | ui/timelinewidget.cpp:465-483 | every ghost is its snapshot shifted by the common frame delta with its length and clip_in kept; its track is the snapshot track moved by the polarity rule for import or move |
| Validation.MoveSelections | ui/timelinewidget.cpp:485-503 | every selection is its snapshot shifted by the frame delta with its length kept, and follows the track delta only on the drag origin's side |
| Validation.Resolve | ui/timelinewidget.cpp:373-381 | the cached handles resolve to exactly the clips of their live slots: every live handle's clip is in the result, every result clip is some live handle's, and when every handle is live the result is those clips in cache order |
| Validation.TrimUpdate | ui/timelinewidget.cpp:349-441 | the trim branch changes only ghosts, selections and snap state, keeping every snapshot |
| Validation.MoveUpdate | ui/timelinewidget.cpp:442-504 | the move branch changes only ghosts, selections and snap state, keeping every snapshot; an import leaves the selections alone |
| Validation.UpdateGhosts | ui/timelinewidget.cpp:343-505 | a pointer motion never commits: only ghosts, selections and snap state change, counts are kept, and every ghost keeps its snapshot |
| TrimProofs.ClampTrimInKeepsFit | ui/timelinewidget.cpp:356-369 | one ghost's in-edge clamps never break a delta another ready ghost accepts |
| TrimProofs.ValidateTrimInKeepsFit | ui/timelinewidget.cpp:353-418 | a delta a ready ghost accepts is still accepted after the whole in-edge loop (snapping off, not rippling) |
| TrimProofs.ValidateTrimInFitsAll | ui/timelinewidget.cpp:353-418 | the in-edge loop resolves a delta every ready ghost accepts, not just the last, and keeps one they all accept |
| TrimProofs.TrimInStaysLegal | ui/timelinewidget.cpp:356-426 | in-edge trim without ripple or snapping: every ghost ends with in at or after 0, clip_in at or after 0 (finite stream), length at least 1, out unchanged, and clip_in moved exactly as far as in |
| TrimProofs.ClampTrimOutKeepsFit | ui/timelinewidget.cpp:390-398 | one ghost's out-edge clamps never break a delta another ready ghost accepts |
| TrimProofs.ValidateTrimOutKeepsFit | ui/timelinewidget.cpp:353-418 | a delta a ready ghost accepts survives the whole out-edge loop |
| TrimProofs.ValidateTrimOutFitsAll | ui/timelinewidget.cpp:353-418 | the out-edge loop resolves a delta every ready ghost accepts, and keeps one they all accept |
| TrimProofs.TrimOutStaysLegal | ui/timelinewidget.cpp:390-428 | out-edge trim without ripple or snapping: every ghost's length stays in [1, media length] (finite stream), with in and clip_in unchanged |
| TrimProofs.TrimOutSingleGhost | ui/timelinewidget.cpp:390-428 | a single out-edge ghost of a finite stream with media at least a frame long ends with a length in [1, media length], whatever its snapshot |
| TrimProofs.RippleTrimInClearsPostClips | ui/timelinewidget.cpp:353-388 | for any number of ghosts, the ripple in-edge loop (snapping off) resolves a delta that keeps every post-clip at or after 0 and clear of the pre-clips on its track |
| TrimProofs.RippleTrimInKeepsCachesClear | ui/timelinewidget.cpp:343-429 | with snapping off, a ripple in-trim motion moves every ghost's in-point by one common delta that keeps every post-clip of the editor's caches, resolved against the store, at or after 0 and clear of the pre-clips on its track |
| TrimProofs.RippleTrimInUpdateClear | ui/timelinewidget.cpp:349-429 | the same for the trim branch alone, snapping off: one common in-point delta, clear of the resolved caches |
| TrimProofs.RippleTrimOutClearsPostClips | ui/timelinewidget.cpp:353-418 | for any number of ghosts, the ripple out-edge loop (snapping off) resolves a delta that keeps every post-clip clear of the pre-clips on its track |
| TrimProofs.RippleTrimOutKeepsCachesClear | ui/timelinewidget.cpp:343-429 | with snapping off, a ripple out-trim motion moves every ghost's out-point by one common delta that keeps every post-clip of the editor's caches, resolved against the store, clear of the pre-clips on its track |
| TrimProofs.RippleTrimOutUpdateClear | ui/timelinewidget.cpp:349-429 | the same for the trim branch alone, snapping off: one common out-point delta, clear of the resolved caches |
| MoveProofs.MoveFramesFloor | ui/timelinewidget.cpp:444-463 | with snapping off the move loop only grows the delta, leaves every ghost at or after frame 0, and keeps a delta that already does |
| MoveProofs.PolarityKept | ui/timelinewidget.cpp:451-460 | a later ghost's polarity clamp never undoes an earlier ghost's polarity |
| MoveProofs.PolarityKeptAll | ui/timelinewidget.cpp:443-463 | every ghost on the drag origin's side keeps its polarity under the resolved track delta |
| MoveProofs.MoveShiftsRigidly | ui/timelinewidget.cpp:465-503 | a move shifts every ghost, and every carried selection, by one common frame delta, keeping lengths and clip_in |
| MoveProofs.MoveStaysAtOrAfterZero | ui/timelinewidget.cpp:447-470 | with snapping off no ghost starts before frame 0, and a delta that is already legal is followed exactly |
| MoveProofs.MoveKeepsPolarity | ui/timelinewidget.cpp:451-482 | no ghost changes polarity; outside import, ghosts of the other polarity stay on their track; during import, video ghosts only go more negative and audio ghosts only go up |
| MoveProofs.MoveUpdateKeepsPolarity | ui/timelinewidget.cpp:443-482 | the same for the move branch alone, from the frame and track deltas |
| Seeding.InitGhost | ui/timelinewidget.cpp:288-300 | one ghost's snapshot is its current geometry, which is kept; a trim caches the length as out minus in and the media length, otherwise both caches are kept |
| Seeding.InitGhosts | ui/timelinewidget.cpp:287-300 | each snapshot equals the ghost's current geometry, which is unchanged; a trim caches length and media length |
| Seeding.InitSelections | ui/timelinewidget.cpp:301-306 | each selection's snapshot equals its current range |
| Seeding.InitGhostsIdempotent | ui/timelinewidget.cpp:287-306 | taking the snapshot twice is taking it once, for every list of ghosts and every list of selections |
| Seeding.SnapshotDependsOnGeometry | ui/timelinewidget.cpp:287-300 | the snapshot depends only on current geometry, not on any earlier snapshot |
| Seeding.SelectedGhosts | ui/timelinewidget.cpp:536-541 | each ghost copies the geometry of a live selected clip, in strictly increasing store order |
| Seeding.SelectedGhostsComplete | ui/timelinewidget.cpp:536-541 | every live selected clip gets a ghost |
| Seeding.AudioGhosts | ui/timelinewidget.cpp:55-60 | audio stream j of an item gets a ghost on track j spanning the item's length from its start |
| Seeding.VideoGhosts | ui/timelinewidget.cpp:61-66 | one ghost per remaining video stream |
| Seeding.VideoGhostsShape | ui/timelinewidget.cpp:61-66 | every video ghost is a clipless ghost of the item at its start with clip_in 0, on track -1 minus its stream index |
| Seeding.VideoGhostsLayout | ui/timelinewidget.cpp:61-66 | video stream k gets a ghost on track -1-k whose out-point is a still's 100 frames once an infinite stream has been met in an item without audio, the item's length otherwise |
| Seeding.ItemGhosts | ui/timelinewidget.cpp:50-66 | an item gets one clipless ghost per stream at its start with clip_in 0: audio stream k on track k, then video stream k on track -1-k |
| Seeding.ItemLayout | ui/timelinewidget.cpp:50-66 | an item's ghosts are its audio ghosts, then its video ghosts, laid out as above with clip_in 0 |
| Seeding.ImportGhosts | ui/timelinewidget.cpp:48-68 | the import makes one ghost per stream of every item, each clipless with clip_in 0 and the media of one of the dragged items |
| Seeding.ImportGhostsAfterFirst | ui/timelinewidget.cpp:48-68 | past the first item's ghosts come the ghosts of the remaining items, laid out from the end of the first item |
| Seeding.ImportLayout | ui/timelinewidget.cpp:48-68 | items are laid end to end: item i's ghosts follow the earlier items' ghosts and start at the entry frame plus the earlier items' lengths |
| Seeding.DragEnter | ui/timelinewidget.cpp:40-72 | a drag from the source table starts an import with the laid-out ghosts and the selections snapshotted and the drag origin on track -1 or 0; any other drag changes nothing |
| Seeding.DragLeave | ui/timelinewidget.cpp:82-88 | leaving during an import drops the ghosts and ends the import, with store and selections untouched |
| RippleCache.AddFirst | ui/timelinewidget.cpp:558-593 | after filing a clip its track is covered; a covered track leaves the cache as it was, an uncovered one appends the clip |
| RippleCache.AddFirstFacts | ui/timelinewidget.cpp:558-593 | filing a clip only appends; afterwards its track is covered; a well-formed cache stays well formed |
| RippleCache.ScanClipsGrows | ui/timelinewidget.cpp:547-595 | one ghost's scan only appends, keeps one clip per track and keeps covered tracks covered |
| RippleCache.ScanClipsCovers | ui/timelinewidget.cpp:547-595 | after one ghost's scan, every clip not under edit has its track covered in the cache of the side of the ghost's clip it falls on |
| RippleCache.ScanClipsSides | ui/timelinewidget.cpp:547-595 | each entry one ghost's scan appends is a live clip before (pre) or at/after (post) the ghost's clip |
| RippleCache.ScanGhostsGrows | ui/timelinewidget.cpp:545-597 | the ghost loop only appends, keeps well-formedness and keeps covered tracks covered |
| RippleCache.ScanGhostsCovers | ui/timelinewidget.cpp:545-597 | every clip not under edit has its track covered in the pre-cache or post-cache, by its side of each ghost's clip |
| RippleCache.ScanGhostsSound | ui/timelinewidget.cpp:545-597 | every new entry is a live clip before (pre) or at/after (post) some ghost's clip |
| RippleCache.BuildCachesFacts | ui/timelinewidget.cpp:543-597 | from empty caches: at most one live non-edited clip per track in each, each on its side of some ghost's clip, and every such track covered |
| RippleCache.BuildCaches | ui/timelinewidget.cpp:543-597 | the scan only appends to both caches, keeps them well formed, and every appended entry is a live clip before (pre) or at/after (post) some ghost's clip |
| Commit.SetLocks | ui/timelinewidget.cpp:199-202 | exactly the ghosts' clips get the new undeletable flag; nothing else changes and no slot empties or fills |
| Commit.ReleaseStore | ui/timelinewidget.cpp:179-248 | without a move or trim in flight the store is untouched; a release keeps the store size, or with Alt adds one slot per duplicated ghost |
| Commit.MovePass | ui/timelinewidget.cpp:203-217 | keeps the store size and every locked clip |
| Commit.MoveCommit | ui/timelinewidget.cpp:197-222 | keeps the store size |
| Commit.MovePassFacts | ui/timelinewidget.cpp:203-217 | each ghost's clip ends with the ghost's geometry; other clips are kept, or removed only when clearing and not locked |
| Commit.MoveCommitPlaces | ui/timelinewidget.cpp:197-222 | with distinct live ghost clips, each ends with exactly the ghost's in/out/track/clip_in and deletable; other clips are kept or, on the pointer tool, removed if deletable; without clearing no slot empties |
| Commit.DuplicatePass | ui/timelinewidget.cpp:180-196 | one new slot per ghost |
| Commit.Duplicate | ui/timelinewidget.cpp:180-196 | one new slot per ghost |
| Commit.DuplicatePassFacts | ui/timelinewidget.cpp:180-196 | old clips are kept, or removed only if deletable, and kept when clear of every ghost's area; the k-th new slot holds ghost k's copy or is empty, and holds it when clear of the later ghosts' areas |
| Commit.DuplicateAppends | ui/timelinewidget.cpp:180-196 | the last ghost's copy always survives; with disjoint target areas every copy does, at the ghost's geometry and deletable |
| Commit.LeastEdge | ui/timelinewidget.cpp:234-242 | the minimum is at most every comparable edge and equals the start or one of them |
| Commit.PlanRipple | ui/timelinewidget.cpp:226-247 | length is ghost 0's old edge minus new edge; point is at most every ghost's comparable edge (old edge when length < 0, else new) and equals one of them; shift is length for in-edge, -length for out-edge |
| Commit.Release | ui/timelinewidget.cpp:178-262 | every release leaves no ghosts, empty caches and the selecting/moving/splitting/snapped flags down; without a move or trim in flight the store is untouched |
| Commit.ReleaseCommitsMove | ui/timelinewidget.cpp:197-222 | a pointer-tool move release puts each ghost's clip at exactly the ghost's in/out/track/clip_in, not undeletable; other clips are kept unless deletable and landed on; the store keeps its size |
| Commit.ReleaseRipples | ui/timelinewidget.cpp:224-247 | a ripple-tool release deletes nothing, then shifts every clip at or after the ripple point by the planned shift and leaves earlier clips in place |
| Commit.DropPass | ui/timelinewidget.cpp:94-120 | one new slot per ghost |
| Commit.DropPassFacts | ui/timelinewidget.cpp:94-120 | old clips are kept, or removed only if deletable, and kept when clear of every ghost's area; the k-th new slot holds ghost k's clip or is empty, and holds it when clear of the later ghosts' areas |
| Commit.Drop | ui/timelinewidget.cpp:90-127 | a drop during an import adds one slot per ghost, clears the ghosts and ends the import unsnapped; otherwise nothing changes |
| Commit.DropCreatesClips | ui/timelinewidget.cpp:94-120 | with disjoint ghost areas every ghost becomes a clip named after its media, in colour (128,128,192), with the ghost's geometry, deletable |
| Gesture.ClipIndexAt | ui/timelinewidget.cpp:836-846 | returns the first clip whose half-open interval on the track holds the frame, or -1 exactly when none does |
| Gesture.EdgeAt | ui/timelinewidget.cpp:630-645 | the first clip on the track with an edge strictly inside the window, or -1 exactly when there is none |
| Gesture.HoverTrim | ui/timelinewidget.cpp:622-651 | trim target -1 exactly when no clip on the track has an edge in the window; otherwise the first such clip, trimming its in-edge iff the in-edge is in the window; nothing else changes |
| Gesture.Resize | ui/timelinewidget.cpp:514-516 | resizing keeps the entries it keeps |
| Gesture.RangeSelect | ui/timelinewidget.cpp:508-527 | 1 + distance-between-tracks selections on consecutive tracks from the lower one, each spanning [min frame, max frame]; kept entries keep their snapshots; playhead at the lower frame |
| Gesture.RangeSelectCovers | ui/timelinewidget.cpp:513-526 | the selected tracks are exactly those between the press and the pointer track; each selection contains both frames; the playhead is the earlier of the two |
| Gesture.RangeSelectSymmetric | ui/timelinewidget.cpp:513-526 | dragging from A to B selects what dragging from B to A selects |
| Gesture.BeginMove | ui/timelinewidget.cpp:534-605 | set-up marks the gesture running with every ghost on a live clip, the store untouched |
| Gesture.AppendPickedLive | ui/timelinewidget.cpp:536-541 | appending the selected clips' ghosts keeps every ghost on a live clip |
| Gesture.SelectedGhostsExact | ui/timelinewidget.cpp:536-541 | the ghosts hold exactly the live selected clips, each once |
| Gesture.BeginMoveSelects | ui/timelinewidget.cpp:534-605 | from rest there is one ghost per live selected clip and none twice, so the release precondition holds |
| Gesture.BeginMoveAtRest | ui/timelinewidget.cpp:534-605 | from rest each ghost starts at its clip's geometry with the snapshot equal to it, caching length and media length for a trim |
| Gesture.PickedAtRest | ui/timelinewidget.cpp:536-541 | the snapshotted ghosts of the selected clips each sit on a live clip at its geometry, with the snapshot equal to it and, for a trim, the cached lengths |
| Gesture.BeginRippleCaches | ui/timelinewidget.cpp:543-601 | a ripple set-up from empty caches, over the old ghosts plus the selected clips' ghosts, builds well-formed caches whose entries lie on their side of some ghost's clip, and every other clip's track is cached on its side of every ghost's clip |
| Gesture.MouseMove | ui/timelinewidget.cpp:507-656 | a range select extends the rectangle; a set-up leaves the gesture running on live clips; with no gesture only the trim target changes; outside a razor drag the store never changes |
| Gesture.DragMove | ui/timelinewidget.cpp:74-80 | drag motion during an import changes only ghost state; otherwise nothing |
| Scenarios.MoveClampsAtZero | ui/timelinewidget.cpp:443-471 | a clip at [10, 20) moved by -5 lands at [5, 15); moved by -15 it stops at [0, 10) on the same track |
| Scenarios.TrimClampsAtMediaLength | ui/timelinewidget.cpp:389-429 | pulling out by 5 the out-edge of a 10-frame clip of 12-frame media leaves it at [0, 12) |
| Scenarios.MoveSnapsToPlayhead | ui/timelinewidget.cpp:328-341 | with the playhead at 100, moving a clip from in-point 90 by 9 snaps its in-point to 100 and records the snap at 100 |
| Scenarios.SnapUndoesTrimClamp | ui/timelinewidget.cpp:328-369 | an in-edge trim of [20, 60) with clip_in 20 by -20 is clamped to in-point 0, then snapping the untouched out-edge to a clip edge at 35 pulls the in-point and clip_in to -5 |
| Scenarios.SnapBreaksRippleClear | ui/timelinewidget.cpp:353-418 | with snapping on, a ripple in-trim by 50 is clamped to 45 to keep a post-clip at [50, 52) clear of the pre-clip at [0, 5), then a snap to a clip edge at 150 moves the delta to 50, so the post-clip would overlap the pre-clip |
| Scenarios.RippleTrimCloses | ui/timelinewidget.cpp:224-247 | releasing a ripple trim of [0, 10) to [0, 7) moves the next clip on the track from [10, 20) to [7, 17) and keeps a clip before the ripple point in place |

## Left out

- `mousePressEvent` (choosing the clicked clip, selecting it, seeking, arming the gesture flags) is not modelled. The selection test `is_clip_selected` is also left out: the clips a set-up picks are given as a set of handles.
- Gesture.MouseMove: the razor-drag branch (ui/timelinewidget.cpp:608-621) splits every clip on the pointer's track at the press frame through `split_clip`, which is not part of this model. The model leaves the editor unchanged in that branch and its contract says nothing about the store there.
- Razor splitting (`split_clip` on press and during a razor drag): the clip split belongs to the sequence class, whose source is not part of this model.
- Screen-to-frame and screen-to-track mapping: it uses floating-point division and the widget geometry. Pointer frames, tracks and the hover window bounds are integer inputs.
- Painting, pixmaps, cursors, repaint calls and the effect-controls panel update at the end of a release: none of these changes the timeline state.
- The default effects `dropEvent` attaches to each new clip (`create_effect`): effects are not part of the model.
- app/widget/scope/scopebase/scopebase.cpp: GPU upload and rendering, with no timeline logic.
- ClipStore.DeleteArea, ClipStore.RippleShift: the sequence's `delete_area` and the timeline panel's `ripple` (called at ui/timelinewidget.cpp:244 and 246) are not part of this model. These are the simplest behaviours consistent with their use here: whole clips are removed, not partially trimmed, and ripple shifts clips starting at or after the point. Commit.MoveCommit and Commit.ReleaseStore keep the store's size, and the "kept or removed" clauses of Commit.MoveCommitPlaces, Commit.ReleaseCommitsMove, Commit.DuplicatePassFacts and Commit.DropPassFacts hold, only because the model's DeleteArea never splits or trims a clip.
- Integer widths: `long` frames and `int` tracks are unbounded integers, so overflow and `abs(INT_MIN)` are not modelled.
- Commit.Duplicate: each copy is taken from the clip as it was when the release began. The program reads the clip again on each iteration, after earlier iterations may have cleared areas; it differs only when one ghost's target area overlaps another ghost's clip.
- Commit.Release: when the ripple tool releases with no ghosts, the program reads the first ghost of an empty list. The model skips the ripple in that case.
- Seeding.InitGhosts: the media length is taken from the ghost's media and counted in frames at the sequence rate (`get_length_in_frames` is not modelled). For a move or trim the ghost's media is its clip's.
- Validation.ClampTrimOut, TrimProofs.TrimOutStaysLegal: the out-edge clamp bounds the clip's length by the media length. It does not bound clip_in plus length, so a trim can run past the end of the media when clip_in is not 0.
- Qt event plumbing (the Alt modifier, the drag source, accept calls) becomes parameters: `alt` of Commit.Release and `fromSourceTable` of Seeding.DragEnter.
- Ripple cache: the program's "closer clip replaces the cached one" branch assigns to a local pointer, so it has no effect. The cache keeps the first clip seen on each track, and that is what is modelled.
- TrimProofs.TrimInStaysLegal, TrimProofs.TrimOutStaysLegal: stated with snapping off. Snapping runs after the trim clamps and can move the delta again by either edge, so with snapping on an in-point or clip_in can end below 0 (Scenarios.SnapUndoesTrimClamp).
- TrimProofs.RippleTrimInClearsPostClips: stated with snapping off. In the per-ghost loop (ui/timelinewidget.cpp:353-418) validate_snapping runs after the ripple clamps, so with snapping on a snap can pull a post-clip into the pre-clip on its track (Scenarios.SnapBreaksRippleClear).
- TrimProofs.RippleTrimInKeepsCachesClear: stated with snapping off, since the snap after the ripple clamps can undo them (Scenarios.SnapBreaksRippleClear).
- TrimProofs.RippleTrimInUpdateClear: stated with snapping off, for the same reason.
- TrimProofs.RippleTrimOutClearsPostClips: stated with snapping off. The snap after the out-edge ripple clamps can likewise move the delta back past them.
- TrimProofs.RippleTrimOutKeepsCachesClear: stated with snapping off, for the same reason.
- TrimProofs.RippleTrimOutUpdateClear: stated with snapping off, for the same reason.
- Seeding.DragEnter: a drag-import entered while a trim target is still set (`trim_target > -1`) makes `init_ghosts` (ui/timelinewidget.cpp:298) read the media through the clip of an import ghost, which is NULL. The model reads the ghost's own media instead.
- Validation.UpdateGhosts: for the same drag-import with a trim target set, `update_ghosts` (ui/timelinewidget.cpp:365 and 394) reads the stream through the NULL clip of an import ghost. The model reads the ghost's own stream instead.
