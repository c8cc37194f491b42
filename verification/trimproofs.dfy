/** Properties of the trim branch of update_ghosts: with snapping off and
    outside the ripple tool, the shared delta the pipeline resolves is legal
    for EVERY ghost, not only for the last one whose clamps ran. This holds
    because every clamp caps the delta at a value >= 0 or floors it at a
    value <= 0, so no ghost's clamp can undo another's. Under the ripple
    tool the last ghost's ripple clamps decide the delta, and they keep
    every post-clip clear of the pre-clips on its track. */
module TrimProofs {
  import opened Timeline
  import opened Snapping
  import opened Validation

  /** An in-edge trim ghost as init_ghosts leaves it: the undragged
      out-edge at its snapshot and the cached length matching it. */
  predicate AtRestForIn(g: Ghost) {
    g.outPoint == g.oldOut && g.ghostLength == g.oldOut - g.oldIn
  }

  /** An out-edge trim ghost as init_ghosts leaves it. */
  predicate AtRestForOut(g: Ghost) {
    g.inPoint == g.oldIn && g.clipIn == g.oldClipIn && g.ghostLength == g.oldOut - g.oldIn
  }

  /** One ghost's in-edge clamps never break a delta another ready ghost
      accepts. */
  lemma ClampTrimInKeepsFit(g: Ghost, h: Ghost, d: int)
    requires TrimInReady(g) && TrimInReady(h) && TrimInFits(h, d)
    ensures TrimInFits(h, ClampTrimIn(g, d))
  {
  }

  lemma {:induction false} ValidateTrimInKeepsFit(gs: seq<Ghost>, diff: int, t: TrimContext, st: SnapState, h: Ghost)
    requires t.trimIn && !t.ripple && !t.snap.enabled
    requires forall i :: 0 <= i < |gs| ==> TrimInReady(gs[i])
    requires TrimInReady(h) && TrimInFits(h, diff)
    ensures TrimInFits(h, ValidateTrim(gs, diff, t, st).diff)
    decreases |gs|
  {
    if |gs| > 0 {
      ClampTrimInKeepsFit(gs[0], h, diff);
      var s := ValidateSnapping(gs[0], ClampTrim(gs[0], diff, t), t.snap, st);
      ValidateTrimInKeepsFit(gs[1..], s.diff, t, s.state, h);
    }
  }

  /** The in-edge pipeline, snapping off and not rippling, resolves a delta
      that every ready ghost accepts; a delta they all accept already is
      left as it is. */
  lemma {:induction false} ValidateTrimInFitsAll(gs: seq<Ghost>, diff: int, t: TrimContext, st: SnapState)
    requires t.trimIn && !t.ripple && !t.snap.enabled
    requires forall i :: 0 <= i < |gs| ==> TrimInReady(gs[i])
    ensures forall i :: 0 <= i < |gs| ==> TrimInFits(gs[i], ValidateTrim(gs, diff, t, st).diff)
    ensures (forall i :: 0 <= i < |gs| ==> TrimInFits(gs[i], diff)) ==> ValidateTrim(gs, diff, t, st).diff == diff
    decreases |gs|
  {
    if |gs| > 0 {
      var s := ValidateSnapping(gs[0], ClampTrim(gs[0], diff, t), t.snap, st);
      ValidateTrimInFitsAll(gs[1..], s.diff, t, s.state);
      ValidateTrimInKeepsFit(gs[1..], s.diff, t, s.state, gs[0]);
      assert forall i :: 1 <= i < |gs| ==> gs[i] == gs[1..][i - 1];
    }
  }

  /** In-edge trim, not rippling, snapping off: after update_ghosts every
      ghost starts at or after frame 0, has clip_in >= 0 (finite stream) and
      is at least one frame long; the out-edge has not moved, and clip_in
      moved exactly as far as the in-point. */
  lemma TrimInStaysLegal(e: Editor, mouseFrame: int, mouseTrack: int)
    requires e.trimTarget > -1 && e.trimIn && e.tool != Ripple && !e.snapping
    requires forall i :: 0 <= i < |e.ghosts| ==> TrimInReady(e.ghosts[i]) && AtRestForIn(e.ghosts[i])
    ensures var r := UpdateGhosts(e, mouseFrame, mouseTrack);
      forall i :: 0 <= i < |r.ghosts| ==>
        var g, h := e.ghosts[i], r.ghosts[i];
        && h.inPoint >= 0
        && (!g.stream.infiniteLength ==> h.clipIn >= 0)
        && h.outPoint - h.inPoint >= 1
        && h.outPoint == g.oldOut
        && h.clipIn - g.oldClipIn == h.inPoint - g.oldIn
  {
    var ctx := SnapContext(e.snapping, e.playhead, e.store);
    var t := TrimContext(e.trimIn, e.tool == Ripple, Resolve(e.store, e.preClips), Resolve(e.store, e.postClips), ctx);
    ValidateTrimInFitsAll(e.ghosts, mouseFrame - e.dragFrameStart, t, SnapState(e.snapped, e.snapPoint));
  }

  /** One ghost's out-edge clamps never break a delta another ready ghost
      accepts. */
  lemma ClampTrimOutKeepsFit(g: Ghost, h: Ghost, d: int)
    requires TrimOutReady(g) && TrimOutReady(h) && TrimOutFits(h, d)
    ensures TrimOutFits(h, ClampTrimOut(g, d))
  {
  }

  lemma {:induction false} ValidateTrimOutKeepsFit(gs: seq<Ghost>, diff: int, t: TrimContext, st: SnapState, h: Ghost)
    requires !t.trimIn && !t.ripple && !t.snap.enabled
    requires forall i :: 0 <= i < |gs| ==> TrimOutReady(gs[i])
    requires TrimOutReady(h) && TrimOutFits(h, diff)
    ensures TrimOutFits(h, ValidateTrim(gs, diff, t, st).diff)
    decreases |gs|
  {
    if |gs| > 0 {
      ClampTrimOutKeepsFit(gs[0], h, diff);
      var s := ValidateSnapping(gs[0], ClampTrim(gs[0], diff, t), t.snap, st);
      ValidateTrimOutKeepsFit(gs[1..], s.diff, t, s.state, h);
    }
  }

  /** The out-edge pipeline, snapping off and not rippling, resolves a delta
      every ready ghost accepts, and keeps one they all accept already. */
  lemma {:induction false} ValidateTrimOutFitsAll(gs: seq<Ghost>, diff: int, t: TrimContext, st: SnapState)
    requires !t.trimIn && !t.ripple && !t.snap.enabled
    requires forall i :: 0 <= i < |gs| ==> TrimOutReady(gs[i])
    ensures forall i :: 0 <= i < |gs| ==> TrimOutFits(gs[i], ValidateTrim(gs, diff, t, st).diff)
    ensures (forall i :: 0 <= i < |gs| ==> TrimOutFits(gs[i], diff)) ==> ValidateTrim(gs, diff, t, st).diff == diff
    decreases |gs|
  {
    if |gs| > 0 {
      var s := ValidateSnapping(gs[0], ClampTrim(gs[0], diff, t), t.snap, st);
      ValidateTrimOutFitsAll(gs[1..], s.diff, t, s.state);
      ValidateTrimOutKeepsFit(gs[1..], s.diff, t, s.state, gs[0]);
      assert forall i :: 1 <= i < |gs| ==> gs[i] == gs[1..][i - 1];
    }
  }

  /** Out-edge trim, not rippling, snapping off, every ghost's snapshot
      length within [1, media length]: after update_ghosts every ghost is
      still that long, and its in-point and clip_in have not moved. */
  lemma TrimOutStaysLegal(e: Editor, mouseFrame: int, mouseTrack: int)
    requires e.trimTarget > -1 && !e.trimIn && e.tool != Ripple && !e.snapping
    requires forall i :: 0 <= i < |e.ghosts| ==> TrimOutReady(e.ghosts[i]) && AtRestForOut(e.ghosts[i])
    ensures var r := UpdateGhosts(e, mouseFrame, mouseTrack);
      forall i :: 0 <= i < |r.ghosts| ==>
        var g, h := e.ghosts[i], r.ghosts[i];
        && h.outPoint - h.inPoint >= 1
        && (!g.stream.infiniteLength ==> h.outPoint - h.inPoint <= g.mediaLength)
        && h.inPoint == g.oldIn && h.clipIn == g.oldClipIn
  {
    var ctx := SnapContext(e.snapping, e.playhead, e.store);
    var t := TrimContext(e.trimIn, e.tool == Ripple, Resolve(e.store, e.preClips), Resolve(e.store, e.postClips), ctx);
    ValidateTrimOutFitsAll(e.ghosts, mouseFrame - e.dragFrameStart, t, SnapState(e.snapped, e.snapPoint));
  }

  /** Out-edge trim of a single ghost of a finite stream, not rippling,
      snapping off: whatever its snapshot, the new length lies in
      [1, media length] as long as the media is at least a frame long. */
  lemma TrimOutSingleGhost(e: Editor, mouseFrame: int, mouseTrack: int)
    requires e.trimTarget > -1 && !e.trimIn && e.tool != Ripple && !e.snapping
    requires |e.ghosts| == 1 && AtRestForOut(e.ghosts[0])
    requires !e.ghosts[0].stream.infiniteLength && e.ghosts[0].mediaLength >= 1
    ensures var h := UpdateGhosts(e, mouseFrame, mouseTrack).ghosts[0];
      && 1 <= h.outPoint - h.inPoint <= e.ghosts[0].mediaLength
      && h.inPoint == e.ghosts[0].oldIn && h.clipIn == e.ghosts[0].oldClipIn
  {
    assert e.ghosts[1..] == [];
  }

  /** Ripple in-edge trim, snapping off: whatever the ghosts, the delta
      the pass resolves keeps every cached post-clip at or after frame 0
      and clear of the pre-clip cached on its track. The last ghost's ripple
      clamps decide it, and nothing runs after them but a disabled snap. */
  lemma {:induction false} RippleTrimInClearsPostClips(gs: seq<Ghost>, diff: int, t: TrimContext, st: SnapState)
    requires t.trimIn && t.ripple && !t.snap.enabled && |gs| > 0
    ensures RippleInClear(ValidateTrim(gs, diff, t, st).diff, t.pre, t.post)
    decreases |gs|
  {
    var s := ValidateSnapping(gs[0], ClampTrim(gs[0], diff, t), t.snap, st);
    if |gs| > 1 {
      RippleTrimInClearsPostClips(gs[1..], s.diff, t, s.state);
    } else {
      assert gs[1..] == [];
    }
  }

  /** Ripple out-edge trim, snapping off: the resolved delta keeps every
      cached post-clip clear of the pre-clip on its track. */
  lemma {:induction false} RippleTrimOutClearsPostClips(gs: seq<Ghost>, diff: int, t: TrimContext, st: SnapState)
    requires !t.trimIn && t.ripple && !t.snap.enabled && |gs| > 0
    ensures RippleOutClear(ValidateTrim(gs, diff, t, st).diff, t.pre, t.post)
    decreases |gs|
  {
    var s := ValidateSnapping(gs[0], ClampTrim(gs[0], diff, t), t.snap, st);
    if |gs| > 1 {
      RippleTrimOutClearsPostClips(gs[1..], s.diff, t, s.state);
    } else {
      assert gs[1..] == [];
    }
  }

  /** A ripple in-edge trim in the editor, snapping off: every ghost's
      in-point moves by the same delta, and that delta keeps each clip of
      the post-cache at or after frame 0 and clear of the pre-cache clip on
      its track, as the ripple on release will move them. */
  lemma RippleTrimInKeepsCachesClear(e: Editor, mouseFrame: int, mouseTrack: int)
    requires e.trimTarget > -1 && e.trimIn && e.tool == Ripple && !e.snapping && |e.ghosts| > 0
    ensures var r := UpdateGhosts(e, mouseFrame, mouseTrack);
      var pre, post := Resolve(e.store, e.preClips), Resolve(e.store, e.postClips);
      forall i :: 0 <= i < |r.ghosts| ==>
        && r.ghosts[i].inPoint - e.ghosts[i].oldIn == r.ghosts[0].inPoint - e.ghosts[0].oldIn
        && RippleInClear(r.ghosts[i].inPoint - e.ghosts[i].oldIn, pre, post)
  {
    RippleTrimInUpdateClear(e, mouseFrame - e.dragFrameStart, UpdateGhosts(e, mouseFrame, mouseTrack));
  }

  /** The trim branch on its own, with `r` the editor it produces: the
      same common delta, clear of the cached clips. */
  lemma RippleTrimInUpdateClear(e: Editor, frameDiff: int, r: Editor)
    requires e.trimIn && e.tool == Ripple && !e.snapping && |e.ghosts| > 0
    requires r == TrimUpdate(e, frameDiff)
    ensures var pre, post := Resolve(e.store, e.preClips), Resolve(e.store, e.postClips);
      forall i :: 0 <= i < |r.ghosts| ==>
        && r.ghosts[i].inPoint - e.ghosts[i].oldIn == r.ghosts[0].inPoint - e.ghosts[0].oldIn
        && RippleInClear(r.ghosts[i].inPoint - e.ghosts[i].oldIn, pre, post)
  {
    var ctx := SnapContext(e.snapping, e.playhead, e.store);
    var t := TrimContext(e.trimIn, e.tool == Ripple, Resolve(e.store, e.preClips), Resolve(e.store, e.postClips), ctx);
    var o := ValidateTrim(e.ghosts, frameDiff, t, SnapState(e.snapped, e.snapPoint));
    RippleTrimInClearsPostClips(e.ghosts, frameDiff, t, SnapState(e.snapped, e.snapPoint));
    assert r.ghosts == ResizeGhosts(e.ghosts, o.diff, e.trimIn);
    forall i | 0 <= i < |r.ghosts|
      ensures r.ghosts[i].inPoint - e.ghosts[i].oldIn == o.diff
    {
    }
  }


  /** A ripple out-edge trim in the editor, snapping off: every ghost's
      out-point moves by the same delta, and that delta keeps each clip of
      the post-cache clear of the pre-cache clip on its track. */
  lemma RippleTrimOutKeepsCachesClear(e: Editor, mouseFrame: int, mouseTrack: int)
    requires e.trimTarget > -1 && !e.trimIn && e.tool == Ripple && !e.snapping && |e.ghosts| > 0
    ensures var r := UpdateGhosts(e, mouseFrame, mouseTrack);
      var pre, post := Resolve(e.store, e.preClips), Resolve(e.store, e.postClips);
      forall i :: 0 <= i < |r.ghosts| ==>
        && r.ghosts[i].outPoint - e.ghosts[i].oldOut == r.ghosts[0].outPoint - e.ghosts[0].oldOut
        && RippleOutClear(r.ghosts[i].outPoint - e.ghosts[i].oldOut, pre, post)
  {
    RippleTrimOutUpdateClear(e, mouseFrame - e.dragFrameStart, UpdateGhosts(e, mouseFrame, mouseTrack));
  }

  /** The trim branch on its own, with `r` the editor it produces: the
      same common delta, clear of the cached clips. */
  lemma RippleTrimOutUpdateClear(e: Editor, frameDiff: int, r: Editor)
    requires !e.trimIn && e.tool == Ripple && !e.snapping && |e.ghosts| > 0
    requires r == TrimUpdate(e, frameDiff)
    ensures var pre, post := Resolve(e.store, e.preClips), Resolve(e.store, e.postClips);
      forall i :: 0 <= i < |r.ghosts| ==>
        && r.ghosts[i].outPoint - e.ghosts[i].oldOut == r.ghosts[0].outPoint - e.ghosts[0].oldOut
        && RippleOutClear(r.ghosts[i].outPoint - e.ghosts[i].oldOut, pre, post)
  {
    var ctx := SnapContext(e.snapping, e.playhead, e.store);
    var t := TrimContext(e.trimIn, e.tool == Ripple, Resolve(e.store, e.preClips), Resolve(e.store, e.postClips), ctx);
    var o := ValidateTrim(e.ghosts, frameDiff, t, SnapState(e.snapped, e.snapPoint));
    RippleTrimOutClearsPostClips(e.ghosts, frameDiff, t, SnapState(e.snapped, e.snapPoint));
    assert r.ghosts == ResizeGhosts(e.ghosts, o.diff, e.trimIn);
    forall i | 0 <= i < |r.ghosts|
      ensures r.ghosts[i].outPoint - e.ghosts[i].oldOut == o.diff
    {
    }
  }

}
