/** Properties of the move branch of update_ghosts (pointer tool or drag
    import): all ghosts shift by one common frame delta, keep their length,
    stay at or after frame 0 when snapping is off, and never cross the
    video/audio boundary. */
module MoveProofs {
  import opened Timeline
  import opened Snapping
  import opened Validation

  /** With snapping off the frame clamps only ever grow the delta, leave it
      where every ghost stays at or after frame 0, and leave alone a delta
      that already does so. */
  lemma {:induction false} MoveFramesFloor(gs: seq<Ghost>, diff: int, td: int, dragTrack: int, snap: SnapContext, st: SnapState)
    requires !snap.enabled
    ensures var r := ValidateMove(gs, diff, td, dragTrack, snap, st);
      && r.diff >= diff
      && (forall i :: 0 <= i < |gs| ==> gs[i].oldIn + r.diff >= 0)
      && ((forall i :: 0 <= i < |gs| ==> gs[i].oldIn + diff >= 0) ==> r.diff == diff)
    decreases |gs|
  {
    if |gs| > 0 {
      var g := gs[0];
      var d := ClampMoveFrames(g, diff);
      var t := if SameSign(g.oldTrack, dragTrack) then KeepPolarity(g.oldTrack, td) else td;
      var s := ValidateSnapping(g, d, snap, st);
      MoveFramesFloor(gs[1..], s.diff, t, dragTrack, snap, s.state);
      assert forall i :: 1 <= i < |gs| ==> gs[i] == gs[1..][i - 1];
    }
  }

  /** A ghost on the drag origin's side that keeps its polarity under track
      delta `td` keeps it under the delta the whole loop resolves: every
      polarity clamp on that side moves the delta away from the boundary. */
  lemma {:induction false} PolarityKept(gs: seq<Ghost>, diff: int, td: int, dragTrack: int, snap: SnapContext, st: SnapState, h: int)
    requires SameSign(h, dragTrack) && SameSign(h, h + td)
    ensures SameSign(h, h + ValidateMove(gs, diff, td, dragTrack, snap, st).trackDiff)
    decreases |gs|
  {
    if |gs| > 0 {
      var g := gs[0];
      var d := ClampMoveFrames(g, diff);
      var t := if SameSign(g.oldTrack, dragTrack) then KeepPolarity(g.oldTrack, td) else td;
      var s := ValidateSnapping(g, d, snap, st);
      PolarityKept(gs[1..], s.diff, t, dragTrack, snap, s.state, h);
    }
  }

  /** Every ghost on the drag origin's side of the boundary keeps its
      polarity under the resolved track delta. */
  lemma {:induction false} PolarityKeptAll(gs: seq<Ghost>, diff: int, td: int, dragTrack: int, snap: SnapContext, st: SnapState)
    ensures var r := ValidateMove(gs, diff, td, dragTrack, snap, st);
      forall i :: 0 <= i < |gs| && SameSign(gs[i].oldTrack, dragTrack) ==>
        SameSign(gs[i].oldTrack, gs[i].oldTrack + r.trackDiff)
    decreases |gs|
  {
    if |gs| > 0 {
      var g := gs[0];
      var d := ClampMoveFrames(g, diff);
      var t := if SameSign(g.oldTrack, dragTrack) then KeepPolarity(g.oldTrack, td) else td;
      var s := ValidateSnapping(g, d, snap, st);
      PolarityKeptAll(gs[1..], s.diff, t, dragTrack, snap, s.state);
      if SameSign(g.oldTrack, dragTrack) {
        PolarityKept(gs[1..], s.diff, t, dragTrack, snap, s.state, g.oldTrack);
      }
      assert forall i :: 1 <= i < |gs| ==> gs[i] == gs[1..][i - 1];
    }
  }

  /** A move shifts every ghost, and every selection it carries along, by
      one common frame delta, keeps every ghost's length and clip_in. */
  lemma MoveShiftsRigidly(e: Editor, mouseFrame: int, mouseTrack: int)
    requires e.trimTarget <= -1 && (e.tool == Pointer || e.importing)
    ensures var r := UpdateGhosts(e, mouseFrame, mouseTrack);
      && (forall i :: 0 <= i < |r.ghosts| ==>
            && r.ghosts[i].outPoint - r.ghosts[i].inPoint == e.ghosts[i].oldOut - e.ghosts[i].oldIn
            && r.ghosts[i].clipIn == e.ghosts[i].clipIn)
      && (forall i, j :: 0 <= i < |r.ghosts| && 0 <= j < |r.ghosts| ==>
            r.ghosts[i].inPoint - e.ghosts[i].oldIn == r.ghosts[j].inPoint - e.ghosts[j].oldIn)
      && (!e.importing ==> forall i, j :: 0 <= i < |r.ghosts| && 0 <= j < |r.selections| ==>
            r.ghosts[i].inPoint - e.ghosts[i].oldIn == r.selections[j].inPoint - e.selections[j].oldIn)
  {
  }

  /** With snapping off, a move never takes a ghost before frame 0, and a
      delta that keeps every ghost at or after frame 0 is followed
      exactly. */
  lemma MoveStaysAtOrAfterZero(e: Editor, mouseFrame: int, mouseTrack: int)
    requires e.trimTarget <= -1 && (e.tool == Pointer || e.importing) && !e.snapping
    ensures var r := UpdateGhosts(e, mouseFrame, mouseTrack);
      && (forall i :: 0 <= i < |r.ghosts| ==> r.ghosts[i].inPoint >= 0)
      && ((forall i :: 0 <= i < |e.ghosts| ==> e.ghosts[i].oldIn + mouseFrame - e.dragFrameStart >= 0) ==>
            forall i :: 0 <= i < |r.ghosts| ==> r.ghosts[i].inPoint - e.ghosts[i].oldIn == mouseFrame - e.dragFrameStart)
  {
    var ctx := SnapContext(e.snapping, e.playhead, e.store);
    MoveFramesFloor(e.ghosts, mouseFrame - e.dragFrameStart, mouseTrack - e.dragTrackStart, e.dragTrackStart, ctx, SnapState(e.snapped, e.snapPoint));
  }

  /** Track polarity under a move. No ghost ever changes polarity. Outside
      an import, a ghost on the drag origin's side follows the (clamped)
      track delta and a ghost on the other side stays on its track; during
      an import video ghosts only move to more negative tracks and audio
      ghosts only to larger ones. */
  lemma MoveKeepsPolarity(e: Editor, mouseFrame: int, mouseTrack: int)
    requires e.trimTarget <= -1 && (e.tool == Pointer || e.importing)
    ensures var r := UpdateGhosts(e, mouseFrame, mouseTrack);
      forall i :: 0 <= i < |r.ghosts| ==>
        var g, h := e.ghosts[i], r.ghosts[i];
        && SameSign(h.track, g.oldTrack)
        && (!e.importing && !SameSign(g.oldTrack, e.dragTrackStart) ==> h.track == g.oldTrack)
        && (e.importing && g.oldTrack < 0 ==> h.track <= g.oldTrack)
        && (e.importing && g.oldTrack >= 0 ==> h.track >= g.oldTrack)
  {
    MoveUpdateKeepsPolarity(e, mouseFrame - e.dragFrameStart, mouseTrack - e.dragTrackStart);
  }

  /** The move branch on its own: every ghost's track is its snapshot
      track moved by the polarity rule under a track delta that keeps the
      polarity of every ghost on the drag origin's side. */
  lemma MoveUpdateKeepsPolarity(e: Editor, frameDiff: int, trackDiff: int)
    ensures var r := MoveUpdate(e, frameDiff, trackDiff);
      forall i :: 0 <= i < |r.ghosts| ==>
        var g, h := e.ghosts[i], r.ghosts[i];
        && SameSign(h.track, g.oldTrack)
        && (!e.importing && !SameSign(g.oldTrack, e.dragTrackStart) ==> h.track == g.oldTrack)
        && (e.importing && g.oldTrack < 0 ==> h.track <= g.oldTrack)
        && (e.importing && g.oldTrack >= 0 ==> h.track >= g.oldTrack)
  {
    var ctx := SnapContext(e.snapping, e.playhead, e.store);
    var st := SnapState(e.snapped, e.snapPoint);
    var o := ValidateMove(e.ghosts, frameDiff, trackDiff, e.dragTrackStart, ctx, st);
    PolarityKeptAll(e.ghosts, frameDiff, trackDiff, e.dragTrackStart, ctx, st);
    var r := MoveUpdate(e, frameDiff, trackDiff);
    assert r.ghosts == MoveGhosts(e.ghosts, o.diff, o.trackDiff, e.importing, e.dragTrackStart);
    forall i | 0 <= i < |r.ghosts|
      ensures SameSign(r.ghosts[i].track, e.ghosts[i].oldTrack)
    {
      assert r.ghosts[i].track == MoveTrack(e.ghosts[i].oldTrack, o.trackDiff, e.importing, e.dragTrackStart);
    }
  }
}
