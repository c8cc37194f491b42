/** The validation pipeline of update_ghosts: the pointer's offset from the
    gesture's start becomes a frame delta (and, for moves, a track delta)
    that one clamp after another makes legal for every ghost, ghost by ghost
    in list order, with the snap resolver run after each ghost's clamps. The
    resolved delta is then written back onto every ghost and selection. */
module Validation {
  import opened Timeline
  import opened Snapping

  function Abs(x: int): (r: int)
    ensures r >= 0 && (r == x || r == -x)
  {
    if x < 0 then -x else x
  }

  // ---------------------------------------------------------------------
  // In-edge trim

  /** Delta `d` keeps an in-edge trim of `g` legal: at least one frame
      long, not before frame 0, and (finite stream) not before the start of
      the media. */
  predicate TrimInFits(g: Ghost, d: int) {
    && g.ghostLength - d >= 1
    && g.oldIn + d >= 0
    && (!g.stream.infiniteLength ==> g.oldClipIn + d >= 0)
  }

  /** A ghost whose snapshot is itself a legal in-edge trim (delta 0). */
  predicate TrimInReady(g: Ghost) {
    TrimInFits(g, 0)
  }

  /** The in-edge clamps for one ghost: minimum length 1, in-point at or
      after frame 0, clip_in at or after 0 unless the stream is infinite.
      A delta that is already legal is kept. */
  function ClampTrimIn(g: Ghost, diff: int): (r: int)
    ensures g.oldIn + r >= 0
    ensures !g.stream.infiniteLength ==> g.oldClipIn + r >= 0
    ensures TrimInFits(g, diff) ==> r == diff
    ensures TrimInReady(g) ==> TrimInFits(g, r)
  {
    var v1 := g.ghostLength - diff;
    var d1 := if v1 < 1 then diff - (1 - v1) else diff;
    var v2 := g.oldIn + d1;
    var d2 := if v2 < 0 then d1 - v2 else d1;
    var v3 := g.oldClipIn + d2;
    if !g.stream.infiniteLength && v3 < 0 then d2 - v3 else d2
  }

  /** Delta `d` keeps every post-clip of an in-edge ripple at or after frame
      0 and clear of the pre-clip cached for its track. */
  predicate RippleInClear(d: int, pre: seq<Clip>, post: seq<Clip>) {
    && (forall j :: 0 <= j < |post| ==> post[j].timelineIn - d >= 0)
    && (forall j, k :: 0 <= j < |post| && 0 <= k < |pre| && pre[k].track == post[j].track ==>
          post[j].timelineIn - d - pre[k].timelineOut >= 0)
  }

  /** The pre-clip loop of the in-edge ripple clamp, for post-clip `p`. */
  function GuardPreIn(diff: int, pre: seq<Clip>, p: Clip): (r: int)
    decreases |pre|
    ensures r <= diff
    ensures forall k :: 0 <= k < |pre| && pre[k].track == p.track ==> p.timelineIn - r - pre[k].timelineOut >= 0
  {
    if |pre| == 0 then diff
    else
      var v := p.timelineIn - diff - pre[0].timelineOut;
      var d := if pre[0].track == p.track && v < 0 then diff + v else diff;
      GuardPreIn(d, pre[1..], p)
  }

  /** The ripple clamps of an in-edge trim: the ripple may not pull any
      post-clip before frame 0 or into the pre-clip on its track. They only
      ever shrink the delta. */
  function RippleClampIn(diff: int, pre: seq<Clip>, post: seq<Clip>): (r: int)
    decreases |post|
    ensures r <= diff
    ensures RippleInClear(r, pre, post)
  {
    if |post| == 0 then diff
    else
      var p := post[0];
      var v := p.timelineIn - diff;
      var d1 := if v < 0 then diff + v else diff;
      var d2 := GuardPreIn(d1, pre, p);
      var r := RippleClampIn(d2, pre, post[1..]);
      assert forall j :: 1 <= j < |post| ==> post[j] == post[1..][j - 1];
      r
  }

  // ---------------------------------------------------------------------
  // Out-edge trim

  /** Delta `d` keeps an out-edge trim of `g` legal: at least one frame
      long and (finite stream) no longer than the media. */
  predicate TrimOutFits(g: Ghost, d: int) {
    && g.ghostLength + d >= 1
    && (!g.stream.infiniteLength ==> g.ghostLength + d <= g.mediaLength)
  }

  predicate TrimOutReady(g: Ghost) {
    TrimOutFits(g, 0)
  }

  /** The out-edge clamps for one ghost: minimum length 1, and for a finite
      stream a length of at most the media length. */
  function ClampTrimOut(g: Ghost, diff: int): (r: int)
    ensures !g.stream.infiniteLength ==> g.ghostLength + r <= g.mediaLength
    ensures (g.stream.infiniteLength || g.mediaLength >= 1) ==> g.ghostLength + r >= 1
    ensures TrimOutFits(g, diff) ==> r == diff
    ensures TrimOutReady(g) ==> TrimOutFits(g, r)
  {
    var v1 := g.ghostLength + diff;
    var d1 := if v1 < 1 then diff + (1 - v1) else diff;
    var v2 := g.ghostLength + d1;
    if !g.stream.infiniteLength && v2 > g.mediaLength then d1 - (v2 - g.mediaLength) else d1
  }

  /** Delta `d` keeps every post-clip of an out-edge ripple clear of the
      pre-clip cached for its track. */
  predicate RippleOutClear(d: int, pre: seq<Clip>, post: seq<Clip>) {
    forall j, k :: 0 <= j < |post| && 0 <= k < |pre| && pre[k].track == post[j].track ==>
      post[j].timelineIn + d - pre[k].timelineOut >= 0
  }

  function GuardPreOut(diff: int, pre: seq<Clip>, p: Clip): (r: int)
    decreases |pre|
    ensures r >= diff
    ensures forall k :: 0 <= k < |pre| && pre[k].track == p.track ==> p.timelineIn + r - pre[k].timelineOut >= 0
  {
    if |pre| == 0 then diff
    else
      var v := p.timelineIn + diff - pre[0].timelineOut;
      var d := if pre[0].track == p.track && v < 0 then diff - v else diff;
      GuardPreOut(d, pre[1..], p)
  }

  /** The ripple clamp of an out-edge trim: no post-clip may be pulled into
      the pre-clip on its track. It only ever grows the delta. */
  function RippleClampOut(diff: int, pre: seq<Clip>, post: seq<Clip>): (r: int)
    decreases |post|
    ensures r >= diff
    ensures RippleOutClear(r, pre, post)
  {
    if |post| == 0 then diff
    else
      var d := GuardPreOut(diff, pre, post[0]);
      var r := RippleClampOut(d, pre, post[1..]);
      assert forall j :: 1 <= j < |post| ==> post[j] == post[1..][j - 1];
      r
  }

  // ---------------------------------------------------------------------
  // The trim pipeline

  /** What a trim gesture's validation reads: which edge, whether the ripple
      tool is active, the cached pre/post clips and the snap settings. */
  datatype TrimContext = TrimContext(trimIn: bool, ripple: bool, pre: seq<Clip>, post: seq<Clip>, snap: SnapContext)

  /** The clamps one ghost applies to the shared delta. Outside the ripple
      tool a ready ghost's clamps leave a delta it accepts, and keep one it
      accepts already; with the ripple tool the delta leaves every cached
      post-clip clear of the pre-clips. */
  function ClampTrim(g: Ghost, diff: int, t: TrimContext): (r: int)
    ensures !t.ripple && t.trimIn && TrimInReady(g) ==> TrimInFits(g, r)
    ensures !t.ripple && t.trimIn && TrimInFits(g, diff) ==> r == diff
    ensures !t.ripple && !t.trimIn && TrimOutReady(g) ==> TrimOutFits(g, r)
    ensures !t.ripple && !t.trimIn && TrimOutFits(g, diff) ==> r == diff
    ensures t.ripple && t.trimIn ==> RippleInClear(r, t.pre, t.post)
    ensures t.ripple && !t.trimIn ==> RippleOutClear(r, t.pre, t.post)
  {
    if t.trimIn then
      var d := ClampTrimIn(g, diff);
      if t.ripple then RippleClampIn(d, t.pre, t.post) else d
    else
      var d := ClampTrimOut(g, diff);
      if t.ripple then RippleClampOut(d, t.pre, t.post) else d
  }

  /** The validation loop of a trim: each ghost's clamps, then snapping,
      threading one shared delta through the ghosts in order. */
  function ValidateTrim(gs: seq<Ghost>, diff: int, t: TrimContext, st: SnapState): (r: Outcome)
    decreases |gs|
    ensures !t.snap.enabled && |gs| > 0 ==> !r.state.snapped
    ensures |gs| == 0 ==> r == Outcome(diff, st)
  {
    if |gs| == 0 then Outcome(diff, st)
    else
      var s := ValidateSnapping(gs[0], ClampTrim(gs[0], diff, t), t.snap, st);
      ValidateTrim(gs[1..], s.diff, t, s.state)
  }

  /** Writes the resolved delta onto the dragged edge of each ghost. */
  function ResizeGhosts(gs: seq<Ghost>, diff: int, trimIn: bool): (r: seq<Ghost>)
    ensures |r| == |gs|
    ensures forall i :: 0 <= i < |r| ==> SnapshotOf(r[i]) == SnapshotOf(gs[i]) && r[i].track == gs[i].track
    ensures forall i :: 0 <= i < |r| ==> r[i].ghostLength == gs[i].ghostLength && r[i].mediaLength == gs[i].mediaLength
    ensures trimIn ==> forall i :: 0 <= i < |r| ==>
      && r[i].inPoint - gs[i].oldIn == diff && r[i].clipIn - gs[i].oldClipIn == diff
      && r[i].outPoint == gs[i].outPoint
    ensures !trimIn ==> forall i :: 0 <= i < |r| ==>
      r[i].outPoint - gs[i].oldOut == diff && r[i].inPoint == gs[i].inPoint && r[i].clipIn == gs[i].clipIn
  {
    seq(|gs|, i requires 0 <= i < |gs| =>
      var g := gs[i];
      if trimIn then g.(inPoint := g.oldIn + diff, clipIn := g.oldClipIn + diff)
      else g.(outPoint := g.oldOut + diff))
  }

  /** Writes the resolved delta onto the dragged edge of each selection. */
  function ResizeSelections(ss: seq<Selection>, diff: int, trimIn: bool): (r: seq<Selection>)
    ensures |r| == |ss|
    ensures forall i :: 0 <= i < |r| ==> r[i].track == ss[i].track
    ensures trimIn ==> forall i :: 0 <= i < |r| ==> r[i] == ss[i].(inPoint := ss[i].oldIn + diff)
    ensures !trimIn ==> forall i :: 0 <= i < |r| ==> r[i] == ss[i].(outPoint := ss[i].oldOut + diff)
  {
    seq(|ss|, i requires 0 <= i < |ss| =>
      if trimIn then ss[i].(inPoint := ss[i].oldIn + diff) else ss[i].(outPoint := ss[i].oldOut + diff))
  }

  // ---------------------------------------------------------------------
  // The move pipeline

  /** Keeps a moved ghost's in-point at or after frame 0; only ever grows
      the delta, and keeps a delta that is already legal. */
  function ClampMoveFrames(g: Ghost, diff: int): (r: int)
    ensures r >= diff
    ensures g.oldIn + r >= 0
    ensures g.oldIn + diff >= 0 ==> r == diff
  {
    var v := g.oldIn + diff;
    if v < 0 then diff - v else diff
  }

  /** The polarity loop of update_ghosts: while `oldTrack + td` is on the
      other side of the video/audio boundary, step `td` one track back
      towards it. The result is the nearest delta that keeps polarity. */
  function KeepPolarity(oldTrack: int, td: int): (r: int)
    ensures SameSign(oldTrack, oldTrack + r)
    ensures SameSign(oldTrack, oldTrack + td) ==> r == td
    ensures oldTrack < 0 ==> r <= td
    ensures oldTrack >= 0 ==> r >= td
    ensures !SameSign(oldTrack, oldTrack + td) ==> oldTrack + r == (if oldTrack < 0 then -1 else 0)
    decreases if oldTrack < 0 then oldTrack + td else -(oldTrack + td)
  {
    if SameSign(oldTrack, oldTrack + td) then td
    else if oldTrack < 0 then KeepPolarity(oldTrack, td - 1)
    else KeepPolarity(oldTrack, td + 1)
  }

  /** The resolved frame and track deltas of a move, and the snap state. */
  datatype MoveOutcome = MoveOutcome(diff: int, trackDiff: int, state: SnapState)

  /** The validation loop of a move: for each ghost in order, the frame-0
      clamp, the polarity clamp (only for ghosts on the drag origin's side
      of the boundary), then snapping. */
  function ValidateMove(gs: seq<Ghost>, diff: int, td: int, dragTrack: int, snap: SnapContext, st: SnapState): (r: MoveOutcome)
    decreases |gs|
    ensures |gs| == 0 ==> r == MoveOutcome(diff, td, st)
    ensures !snap.enabled && |gs| > 0 ==> !r.state.snapped
  {
    if |gs| == 0 then MoveOutcome(diff, td, st)
    else
      var g := gs[0];
      var d := ClampMoveFrames(g, diff);
      var t := if SameSign(g.oldTrack, dragTrack) then KeepPolarity(g.oldTrack, td) else td;
      var s := ValidateSnapping(g, d, snap, st);
      ValidateMove(gs[1..], s.diff, t, dragTrack, snap, s.state)
  }

  /** The track a ghost or selection moves to. An import moves video
      further up and audio further down by the size of the track delta, so
      it never changes kind; otherwise only tracks of the kind the drag
      started on follow the track delta, and the others stay put. */
  function MoveTrack(oldTrack: int, td: int, importing: bool, dragTrack: int): (r: int)
    ensures importing ==> SameSign(r, oldTrack) && Abs(r - oldTrack) == Abs(td)
    ensures !importing && SameSign(oldTrack, dragTrack) ==> r - oldTrack == td
    ensures !importing && !SameSign(oldTrack, dragTrack) ==> r == oldTrack
  {
    if importing then
      (if oldTrack < 0 then oldTrack - Abs(td) else oldTrack + Abs(td))
    else if SameSign(oldTrack, dragTrack) then oldTrack + td
    else oldTrack
  }

  /** Writes the resolved deltas onto every ghost. */
  function MoveGhosts(gs: seq<Ghost>, diff: int, td: int, importing: bool, dragTrack: int): (r: seq<Ghost>)
    ensures |r| == |gs|
    ensures forall i :: 0 <= i < |r| ==> SnapshotOf(r[i]) == SnapshotOf(gs[i]) && r[i].clipIn == gs[i].clipIn
    ensures forall i :: 0 <= i < |r| ==> r[i].ghostLength == gs[i].ghostLength && r[i].mediaLength == gs[i].mediaLength
    ensures forall i :: 0 <= i < |r| ==> r[i].inPoint - gs[i].oldIn == diff
    ensures forall i :: 0 <= i < |r| ==> r[i].outPoint - r[i].inPoint == gs[i].oldOut - gs[i].oldIn
    ensures forall i :: 0 <= i < |r| ==> r[i].track == MoveTrack(gs[i].oldTrack, td, importing, dragTrack)
  {
    seq(|gs|, i requires 0 <= i < |gs| =>
      var g := gs[i];
      g.(inPoint := g.oldIn + diff, outPoint := g.oldOut + diff,
         track := MoveTrack(g.oldTrack, td, importing, dragTrack)))
  }

  /** Writes the resolved deltas onto every selection (not done on import). */
  function MoveSelections(ss: seq<Selection>, diff: int, td: int, dragTrack: int): (r: seq<Selection>)
    ensures |r| == |ss|
    ensures forall i :: 0 <= i < |r| ==>
      && r[i].inPoint - ss[i].oldIn == diff
      && r[i].outPoint - r[i].inPoint == ss[i].oldOut - ss[i].oldIn
      && r[i].track == MoveTrack(ss[i].oldTrack, td, false, dragTrack)
      && r[i].oldIn == ss[i].oldIn && r[i].oldOut == ss[i].oldOut && r[i].oldTrack == ss[i].oldTrack
  {
    seq(|ss|, i requires 0 <= i < |ss| =>
      var s := ss[i];
      s.(inPoint := s.oldIn + diff, outPoint := s.oldOut + diff,
         track := MoveTrack(s.oldTrack, td, false, dragTrack)))
  }

  // ---------------------------------------------------------------------
  // update_ghosts

  /** The clips behind the live handles of a ripple cache, in order. */
  function Resolve(store: Store, hs: seq<nat>): (r: seq<Clip>)
    ensures |r| <= |hs|
    ensures forall k :: 0 <= k < |hs| && Live(store, hs[k]) ==> store[hs[k]].value in r
    ensures forall c :: c in r ==> exists k :: 0 <= k < |hs| && Live(store, hs[k]) && store[hs[k]].value == c
    ensures (forall k :: 0 <= k < |hs| ==> Live(store, hs[k])) ==>
      |r| == |hs| && forall k :: 0 <= k < |hs| ==> r[k] == store[hs[k]].value
  {
    if |hs| == 0 then []
    else (if Live(store, hs[0]) then [store[hs[0]].value] else []) + Resolve(store, hs[1..])
  }

  /** Everything but the ghosts, the selections and the snap state agrees. */
  predicate OnlyGhostStateDiffers(e: Editor, r: Editor) {
    && r.store == e.store && r.preClips == e.preClips && r.postClips == e.postClips
    && r.tool == e.tool && r.snapping == e.snapping && r.playhead == e.playhead
    && r.trimTarget == e.trimTarget && r.trimIn == e.trimIn
    && r.dragFrameStart == e.dragFrameStart && r.dragTrackStart == e.dragTrackStart
    && r.importing == e.importing && r.selecting == e.selecting
    && r.movingInit == e.movingInit && r.movingProc == e.movingProc && r.splitting == e.splitting
  }

  /** The trim branch of update_ghosts. */
  function TrimUpdate(e: Editor, frameDiff: int): (r: Editor)
    ensures OnlyGhostStateDiffers(e, r)
    ensures |r.ghosts| == |e.ghosts| && |r.selections| == |e.selections|
    ensures forall i :: 0 <= i < |r.ghosts| ==> SnapshotOf(r.ghosts[i]) == SnapshotOf(e.ghosts[i])
  {
    var ctx := SnapContext(e.snapping, e.playhead, e.store);
    var t := TrimContext(e.trimIn, e.tool == Ripple, Resolve(e.store, e.preClips), Resolve(e.store, e.postClips), ctx);
    var o := ValidateTrim(e.ghosts, frameDiff, t, SnapState(e.snapped, e.snapPoint));
    e.(ghosts := ResizeGhosts(e.ghosts, o.diff, e.trimIn),
       selections := ResizeSelections(e.selections, o.diff, e.trimIn),
       snapped := o.state.snapped, snapPoint := o.state.point)
  }

  /** The move branch of update_ghosts (pointer tool, or an import). */
  function MoveUpdate(e: Editor, frameDiff: int, trackDiff: int): (r: Editor)
    ensures OnlyGhostStateDiffers(e, r)
    ensures |r.ghosts| == |e.ghosts| && |r.selections| == |e.selections|
    ensures forall i :: 0 <= i < |r.ghosts| ==> SnapshotOf(r.ghosts[i]) == SnapshotOf(e.ghosts[i])
    ensures e.importing ==> r.selections == e.selections
  {
    var ctx := SnapContext(e.snapping, e.playhead, e.store);
    var o := ValidateMove(e.ghosts, frameDiff, trackDiff, e.dragTrackStart, ctx, SnapState(e.snapped, e.snapPoint));
    e.(ghosts := MoveGhosts(e.ghosts, o.diff, o.trackDiff, e.importing, e.dragTrackStart),
       selections := if e.importing then e.selections else MoveSelections(e.selections, o.diff, o.trackDiff, e.dragTrackStart),
       snapped := o.state.snapped, snapPoint := o.state.point)
  }

  /** update_ghosts for a pointer at frame `mouseFrame` on track
      `mouseTrack`. A pointer move never commits: only ghosts, selections
      and the snap state change, and every ghost keeps its snapshot. */
  function UpdateGhosts(e: Editor, mouseFrame: int, mouseTrack: int): (r: Editor)
    ensures OnlyGhostStateDiffers(e, r)
    ensures |r.ghosts| == |e.ghosts| && |r.selections| == |e.selections|
    ensures forall i :: 0 <= i < |r.ghosts| ==> SnapshotOf(r.ghosts[i]) == SnapshotOf(e.ghosts[i])
  {
    var frameDiff := mouseFrame - e.dragFrameStart;
    var trackDiff := mouseTrack - e.dragTrackStart;
    if e.trimTarget > -1 then TrimUpdate(e, frameDiff)
    else if e.tool == Pointer || e.importing then MoveUpdate(e, frameDiff, trackDiff)
    else e
  }
}
