/** The pointer-motion side of the widget: the clip lookup under a point,
    the trim-edge hover test, the range-select rectangle, the set-up of a
    move or trim (ghosts, ripple caches, snapshot), and the mouse-move and
    drag-move handlers that dispatch between them. Screen coordinates are
    already mapped to frames and tracks. */
module Gesture {
  import opened Timeline
  import opened Seeding
  import opened RippleCache
  import opened Validation

  // ---------------------------------------------------------------------
  // getClipIndexFromCoords

  /** Clip `c` holds frame `frame` of `track` (its interval is half-open). */
  predicate Covers(c: Clip, frame: int, track: int) {
    c.track == track && c.timelineIn <= frame < c.timelineOut
  }

  /** The first clip holding the given frame of the given track, or -1. */
  method ClipIndexAt(store: Store, frame: int, track: int) returns (r: int)
    ensures -1 <= r < |store|
    ensures r >= 0 ==> store[r].Some? && Covers(store[r].value, frame, track)
    ensures r >= 0 ==> forall h :: 0 <= h < r && store[h].Some? ==> !Covers(store[h].value, frame, track)
    ensures r == -1 <==> forall h :: 0 <= h < |store| && store[h].Some? ==> !Covers(store[h].value, frame, track)
  {
    var i := 0;
    while i < |store|
      invariant 0 <= i <= |store|
      invariant forall h :: 0 <= h < i && store[h].Some? ==> !Covers(store[h].value, frame, track)
    {
      if store[i].Some? && store[i].value.track == track {
        if frame >= store[i].value.timelineIn && frame < store[i].value.timelineOut {
          return i;
        }
      }
      i := i + 1;
    }
    return -1;
  }

  // ---------------------------------------------------------------------
  // Trim-target hover (the pointer and ripple tools, no gesture running)

  /** The in-edge of `c` lies strictly inside the pointer window. */
  predicate NearIn(c: Clip, lower: int, upper: int) {
    lower < c.timelineIn < upper
  }

  predicate NearOut(c: Clip, lower: int, upper: int) {
    lower < c.timelineOut < upper
  }

  /** One of the edges of `c`, on the pointer's track, is in the window. */
  predicate Grabbable(c: Clip, track: int, lower: int, upper: int) {
    c.track == track && (NearIn(c, lower, upper) || NearOut(c, lower, upper))
  }

  /** The first clip from slot j on with an edge in the window, or -1. */
  function EdgeAt(store: Store, track: int, lower: int, upper: int, j: nat): (r: int)
    ensures r == -1 || (j <= r < |store| && store[r].Some? && Grabbable(store[r].value, track, lower, upper))
    ensures r == -1 <==> forall h :: j <= h < |store| && store[h].Some? ==> !Grabbable(store[h].value, track, lower, upper)
    ensures r >= 0 ==> forall h :: j <= h < r && store[h].Some? ==> !Grabbable(store[h].value, track, lower, upper)
    decreases |store| - j
  {
    if j >= |store| then -1
    else if store[j].Some? && Grabbable(store[j].value, track, lower, upper) then j
    else EdgeAt(store, track, lower, upper, j + 1)
  }

  /** Hover over the timeline: the first clip on the pointer's track with
      an edge inside the window (lower, upper) becomes the trim target,
      trimming its in-edge whenever that edge is in the window; with no such
      clip the target is -1 and the edge flag is left as it was. */
  function HoverTrim(e: Editor, mouseTrack: int, lower: int, upper: int): (r: Editor)
    ensures r == e.(trimTarget := r.trimTarget, trimIn := r.trimIn)
    ensures r.trimTarget == -1 <==>
      forall h :: 0 <= h < |e.store| && e.store[h].Some? ==> !Grabbable(e.store[h].value, mouseTrack, lower, upper)
    ensures r.trimTarget == -1 ==> r.trimIn == e.trimIn
    ensures r.trimTarget != -1 ==>
      && 0 <= r.trimTarget < |e.store| && e.store[r.trimTarget].Some?
      && Grabbable(e.store[r.trimTarget].value, mouseTrack, lower, upper)
      && (r.trimIn <==> NearIn(e.store[r.trimTarget].value, lower, upper))
      && forall h :: 0 <= h < r.trimTarget && e.store[h].Some? ==> !Grabbable(e.store[h].value, mouseTrack, lower, upper)
  {
    var t := EdgeAt(e.store, mouseTrack, lower, upper, 0);
    if t >= 0 then e.(trimTarget := t, trimIn := NearIn(e.store[t].value, lower, upper))
    else e.(trimTarget := -1)
  }

  // ---------------------------------------------------------------------
  // Range select (the edit tool)

  function Min(a: int, b: int): int { if a < b then a else b }
  function Max(a: int, b: int): int { if a < b then b else a }

  /** The selection list resized to n entries: kept entries keep their
      contents, new ones start zeroed. */
  function Resize(ss: seq<Selection>, n: nat): (r: seq<Selection>)
    ensures |r| == n
    ensures forall i :: 0 <= i < n && i < |ss| ==> r[i] == ss[i]
  {
    if |ss| >= n then ss[..n] else ss + seq(n - |ss|, _ => Selection(0, 0, 0, 0, 0, 0))
  }

  /** A drag of the range-select rectangle from the press point to the
      pointer: one selection per track between the two, all spanning the
      frames between the two; the playhead goes to the earlier frame. */
  function RangeSelect(e: Editor, curTrack: int, curFrame: int): (r: Editor)
    ensures r == e.(selections := r.selections, playhead := r.playhead)
    ensures |r.selections| == 1 + Max(curTrack, e.dragTrackStart) - Min(curTrack, e.dragTrackStart)
    ensures forall i :: 0 <= i < |r.selections| ==>
      && r.selections[i].track == Min(curTrack, e.dragTrackStart) + i
      && r.selections[i].inPoint == Min(e.dragFrameStart, curFrame)
      && r.selections[i].outPoint == Max(e.dragFrameStart, curFrame)
    ensures forall i :: 0 <= i < |r.selections| && i < |e.selections| ==>
      && r.selections[i].oldIn == e.selections[i].oldIn
      && r.selections[i].oldOut == e.selections[i].oldOut
      && r.selections[i].oldTrack == e.selections[i].oldTrack
    ensures r.playhead == Min(e.dragFrameStart, curFrame)
  {
    var n := 1 + Max(curTrack, e.dragTrackStart) - Min(curTrack, e.dragTrackStart);
    var lo := Min(curTrack, e.dragTrackStart);
    var base := Resize(e.selections, n);
    var ss := seq(n, i requires 0 <= i < n =>
      base[i].(track := lo + i, inPoint := Min(e.dragFrameStart, curFrame), outPoint := Max(e.dragFrameStart, curFrame)));
    e.(selections := ss, playhead := Min(e.dragFrameStart, curFrame))
  }

  /** Some selection of `ss` lies on track `t`. */
  predicate OnTrack(ss: seq<Selection>, t: int) {
    exists i :: 0 <= i < |ss| && ss[i].track == t
  }

  /** The rectangle covers exactly the tracks from the press track to the
      pointer track, both included, and each selection contains both the
      press frame and the pointer frame; the playhead is one of the two. */
  lemma RangeSelectCovers(e: Editor, curTrack: int, curFrame: int)
    ensures var r := RangeSelect(e, curTrack, curFrame);
      && |r.selections| == 1 + (if curTrack < e.dragTrackStart then e.dragTrackStart - curTrack else curTrack - e.dragTrackStart)
      && (forall t :: OnTrack(r.selections, t) <==>
            (e.dragTrackStart <= t <= curTrack || curTrack <= t <= e.dragTrackStart))
      && (forall i :: 0 <= i < |r.selections| ==>
            r.selections[i].inPoint <= e.dragFrameStart <= r.selections[i].outPoint
            && r.selections[i].inPoint <= curFrame <= r.selections[i].outPoint)
      && (r.playhead == e.dragFrameStart || r.playhead == curFrame)
      && r.playhead <= e.dragFrameStart && r.playhead <= curFrame
  {
    var r := RangeSelect(e, curTrack, curFrame);
    var lo := Min(curTrack, e.dragTrackStart);
    forall t | e.dragTrackStart <= t <= curTrack || curTrack <= t <= e.dragTrackStart
      ensures OnTrack(r.selections, t)
    {
      assert r.selections[t - lo].track == t;
    }
  }

  /** Dragging from A to B selects the same rectangle, and moves the
      playhead to the same frame, as dragging from B to A. */
  lemma RangeSelectSymmetric(e: Editor, curTrack: int, curFrame: int)
    ensures var f := e.(dragTrackStart := curTrack, dragFrameStart := curFrame);
      var a := RangeSelect(e, curTrack, curFrame);
      var b := RangeSelect(f, e.dragTrackStart, e.dragFrameStart);
      && |a.selections| == |b.selections|
      && (forall i :: 0 <= i < |a.selections| ==>
            a.selections[i].track == b.selections[i].track
            && a.selections[i].inPoint == b.selections[i].inPoint
            && a.selections[i].outPoint == b.selections[i].outPoint)
      && a.playhead == b.playhead
  {
  }

  // ---------------------------------------------------------------------
  // Move and trim set-up (the first pointer motion after a press on a clip)

  /** The set-up step: a ghost for every selected clip (after any ghosts
      already present), for the ripple tool the pre/post caches, the
      snapshot of ghosts and selections, and the gesture marked running. */
  function BeginMove(e: Editor, selected: set<nat>): (r: Editor)
    requires GhostsLive(e.store, e.ghosts)
    ensures GhostsLive(r.store, r.ghosts)
    ensures r.movingProc && r.store == e.store && r.tool == e.tool && r.trimTarget == e.trimTarget
    ensures |r.ghosts| >= |e.ghosts| && |r.selections| == |e.selections|
  {
    AppendPickedLive(e.store, e.ghosts, selected);
    var gs := e.ghosts + SelectedGhosts(e.store, selected, 0);
    var start := Caches(e.preClips, e.postClips);
    var caches := if e.tool == Ripple then BuildCaches(e.store, gs, start) else start;
    e.(ghosts := InitGhosts(gs, e.trimTarget > -1), selections := InitSelections(e.selections),
       preClips := caches.pre, postClips := caches.post, movingProc := true)
  }

  /** Ghosts of live clips stay so after the selected clips' ghosts are
      appended. */
  lemma AppendPickedLive(store: Store, ghosts: seq<Ghost>, selected: set<nat>)
    requires GhostsLive(store, ghosts)
    ensures GhostsLive(store, ghosts + SelectedGhosts(store, selected, 0))
  {
    var picked := SelectedGhosts(store, selected, 0);
    var gs := ghosts + picked;
    forall k | 0 <= k < |gs| ensures gs[k].clip.Some? && Live(store, gs[k].clip.value) {
      if k >= |ghosts| {
        assert gs[k] == picked[k - |ghosts|];
      }
    }
  }

  /** From rest the ghosts are the snapshots of the selected clips' ghosts. */
  lemma BeginMoveGhosts(e: Editor, selected: set<nat>)
    requires e.ghosts == []
    ensures BeginMove(e, selected).ghosts == InitGhosts(SelectedGhosts(e.store, selected, 0), e.trimTarget > -1)
  {
    assert e.ghosts + SelectedGhosts(e.store, selected, 0) == SelectedGhosts(e.store, selected, 0);
  }

  /** The ghosts of the selected clips hold exactly the live selected
      clips, each once. */
  lemma SelectedGhostsExact(store: Store, selected: set<nat>)
    ensures var gs := SelectedGhosts(store, selected, 0);
      && DistinctClips(gs)
      && (forall h :: Live(store, h) && h in selected <==> IsGhostClip(gs, h))
  {
    var gs := SelectedGhosts(store, selected, 0);
    forall h | Live(store, h) && h in selected ensures IsGhostClip(gs, h) {
      SelectedGhostsComplete(store, selected, 0, h);
    }
  }

  /** Taking the snapshot keeps every ghost's handle. */
  lemma InitKeepsHandles(gs: seq<Ghost>, trimming: bool)
    ensures DistinctClips(gs) ==> DistinctClips(InitGhosts(gs, trimming))
    ensures forall h :: IsGhostClip(InitGhosts(gs, trimming), h) <==> IsGhostClip(gs, h)
  {
    var r := InitGhosts(gs, trimming);
    forall h: nat | IsGhostClip(gs, h) ensures IsGhostClip(r, h) {
      var i :| 0 <= i < |gs| && gs[i].clip == Some(h);
      assert r[i].clip == Some(h);
    }
  }

  /** Set-up from rest (no ghosts): there is exactly one ghost per live
      selected clip and no clip has two, which is what the release needs to
      commit the gesture. */
  lemma BeginMoveSelects(e: Editor, selected: set<nat>)
    requires e.ghosts == []
    ensures var r := BeginMove(e, selected);
      && DistinctClips(r.ghosts)
      && (forall h :: Live(e.store, h) && h in selected <==> IsGhostClip(r.ghosts, h))
  {
    BeginMoveGhosts(e, selected);
    SelectedGhostsExact(e.store, selected);
    InitKeepsHandles(SelectedGhosts(e.store, selected, 0), e.trimTarget > -1);
  }

  /** Set-up from rest: each ghost starts at its clip's geometry with the
      snapshot equal to it, and for a trim caches its length and its
      media's length. */
  lemma BeginMoveAtRest(e: Editor, selected: set<nat>)
    requires e.ghosts == []
    ensures var r := BeginMove(e, selected);
      forall i :: 0 <= i < |r.ghosts| ==>
        var g := r.ghosts[i];
        var c := e.store[g.clip.value].value;
        && g.inPoint == c.timelineIn && g.outPoint == c.timelineOut
        && g.track == c.track && g.clipIn == c.clipIn
        && SnapshotOf(g) == Snapshot(g.clip, c.timelineIn, c.timelineOut, c.track, c.clipIn)
        && (e.trimTarget > -1 ==> g.ghostLength == c.timelineOut - c.timelineIn && g.mediaLength == c.media.length)
  {
    BeginMoveGhosts(e, selected);
    PickedAtRest(e.store, selected, e.trimTarget > -1);
  }

  /** The snapshot of the selected clips' ghosts: each ghost sits at its
      clip's geometry with the snapshot equal to it. */
  lemma PickedAtRest(store: Store, selected: set<nat>, trimming: bool)
    ensures var gs := InitGhosts(SelectedGhosts(store, selected, 0), trimming);
      forall i :: 0 <= i < |gs| ==>
        var g := gs[i];
        var c := store[g.clip.value].value;
        && g.clip.Some? && Live(store, g.clip.value)
        && g.inPoint == c.timelineIn && g.outPoint == c.timelineOut
        && g.track == c.track && g.clipIn == c.clipIn
        && SnapshotOf(g) == Snapshot(g.clip, c.timelineIn, c.timelineOut, c.track, c.clipIn)
        && (trimming ==> g.ghostLength == c.timelineOut - c.timelineIn && g.mediaLength == c.media.length)
  {
    var picked := SelectedGhosts(store, selected, 0);
    assert forall i :: 0 <= i < |picked| ==> Mirrors(store, picked[i]);
  }

  /** A ripple set-up from empty caches records, for all the gesture's ghosts,
      the first clip seen per track before and after the clips under edit:
      every cached clip is live, not under edit, alone on its track and on
      its side of some ghost's clip, and every other clip's track is cached
      on its side of every ghost's clip. */
  lemma BeginRippleCaches(e: Editor, selected: set<nat>)
    requires GhostsLive(e.store, e.ghosts) && e.preClips == [] && e.postClips == [] && e.tool == Ripple
    ensures var r := BeginMove(e, selected);
      var gs := e.ghosts + SelectedGhosts(e.store, selected, 0);
      && WellFormed(e.store, gs, r.preClips) && WellFormed(e.store, gs, r.postClips)
      && (forall k :: 0 <= k < |r.preClips| ==> Live(e.store, r.preClips[k]) && SidesWith(e.store, gs, r.preClips[k], true))
      && (forall k :: 0 <= k < |r.postClips| ==> Live(e.store, r.postClips[k]) && SidesWith(e.store, gs, r.postClips[k], false))
      && (forall g, h :: 0 <= g < |gs| && 0 <= h < |e.store| && e.store[h].Some? && !IsGhostClip(gs, h) ==>
            if e.store[h].value.timelineIn < e.store[gs[g].clip.value].value.timelineIn
            then HasTrack(e.store, r.preClips, e.store[h].value.track)
            else HasTrack(e.store, r.postClips, e.store[h].value.track))
  {
    AppendPickedLive(e.store, e.ghosts, selected);
    BuildCachesFacts(e.store, e.ghosts + SelectedGhosts(e.store, selected, 0));
  }

  // ---------------------------------------------------------------------
  // The motion handlers

  /** What the widget knows about one pointer position: its frame and
      track, and the frame window (lower, upper) the hover test uses. */
  datatype PointerAt = PointerAt(frame: int, track: int, lower: int, upper: int)

  /** Mouse motion: extend a range select; set up or update a move or trim;
      or, with no gesture running and the pointer or ripple tool, test for
      a trim edge. A razor drag (splitting) cuts the clips on the pointer's
      track through the sequence's split_clip, which is not part of this
      model: that branch is left as a no-op and the contract says nothing
      about it. Every other branch leaves the clips alone. */
  function MouseMove(e: Editor, p: PointerAt, selected: set<nat>): (r: Editor)
    requires e.movingInit && !e.movingProc ==> GhostsLive(e.store, e.ghosts)
    ensures e.selecting ==> r == RangeSelect(e, p.track, p.frame)
    ensures !e.selecting && e.movingInit && !e.movingProc ==> r.movingProc && GhostsLive(r.store, r.ghosts)
    ensures !e.selecting && !e.movingInit && !e.splitting ==> r == e.(trimTarget := r.trimTarget, trimIn := r.trimIn)
    ensures e.selecting || e.movingInit || !e.splitting ==> r.store == e.store
    ensures r.tool == e.tool && r.selecting == e.selecting && r.movingInit == e.movingInit
  {
    if e.selecting then RangeSelect(e, p.track, p.frame)
    else if e.movingInit then
      if e.movingProc then UpdateGhosts(e, p.frame, p.track) else BeginMove(e, selected)
    else if e.splitting then e
    else if e.tool == Pointer || e.tool == Ripple then HoverTrim(e, p.track, p.lower, p.upper)
    else e
  }

  /** Drag motion during an import updates the import ghosts; otherwise
      nothing happens. */
  function DragMove(e: Editor, p: PointerAt): (r: Editor)
    ensures !e.importing ==> r == e
    ensures OnlyGhostStateDiffers(e, r) && |r.ghosts| == |e.ghosts|
  {
    if e.importing then UpdateGhosts(e, p.frame, p.track) else e
  }
}
