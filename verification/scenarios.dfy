/** Worked examples of the engine on concrete timelines: a move clamped at
    frame 0, an out-edge trim clamped at the media length, a snap to the
    playhead, a snap that undoes an in-edge clamp, a snap that undoes a
    ripple clamp, and a ripple trim committed on release. */
module Scenarios {
  import opened Timeline
  import opened Snapping
  import opened Validation
  import opened Commit

  const Finite: Stream := Stream(0, false)
  const Item: Media := Media("item", 12, [Finite], [])

  /** A clip of `Item` on `track` over [inPoint, outPoint) from clip_in 0. */
  function ClipAt(track: int, inPoint: int, outPoint: int): Clip {
    Clip(Item, Finite, "item", ImportColor, track, inPoint, outPoint, 0, false)
  }

  /** A ghost of clip h at rest over [inPoint, outPoint) of `track`. */
  function GhostAt(h: nat, track: int, inPoint: int, outPoint: int): Ghost {
    Ghost(Some(h), Item, Finite, inPoint, outPoint, track, 0,
          inPoint, outPoint, track, 0, outPoint - inPoint, Item.length)
  }

  /** A gesture in flight with the given ghosts, dragged from frame 0 of
      track 0. */
  function Dragging(store: Store, gs: seq<Ghost>, tool: Tool, snapping: bool, playhead: int, trimTarget: int, trimIn: bool): Editor {
    Editor(store, gs, [], [], [], tool, snapping, playhead, false, 0, trimTarget, trimIn,
           0, 0, false, false, true, true, false)
  }

  /** Moving a clip at [10, 20) on track 0 by -5 frames puts it at [5, 15);
      by -15 frames it stops at [0, 10), since it cannot start before
      frame 0. */
  lemma MoveClampsAtZero()
    ensures var e := Dragging([Some(ClipAt(0, 10, 20))], [GhostAt(0, 0, 10, 20)], Pointer, false, 0, -1, false);
      var a := UpdateGhosts(e, -5, 0).ghosts[0];
      var b := UpdateGhosts(e, -15, 0).ghosts[0];
      && a.inPoint == 5 && a.outPoint == 15 && a.track == 0
      && b.inPoint == 0 && b.outPoint == 10 && b.track == 0
  {
  }

  /** Extending by 5 frames the out-edge of a 10-frame clip of 12-frame
      media stops at a length of 12. */
  lemma TrimClampsAtMediaLength()
    ensures var e := Dragging([Some(ClipAt(0, 0, 10))], [GhostAt(0, 0, 0, 10)], Pointer, false, 0, 0, false);
      var g := UpdateGhosts(e, 5, 0).ghosts[0];
      g.inPoint == 0 && g.outPoint == 12
  {
  }

  /** With snapping on and the playhead at 100, moving a clip whose in-point
      was 90 by 9 frames snaps its in-point to exactly 100. */
  lemma MoveSnapsToPlayhead()
    ensures var e := Dragging([Some(ClipAt(0, 90, 95))], [GhostAt(0, 0, 90, 95)], Pointer, true, 100, -1, false);
      var r := UpdateGhosts(e, 9, 0);
      r.ghosts[0].inPoint == 100 && r.snapped && r.snapPoint == 100
  {
  }

  /** A ripple trim pulling in the out-edge of [0, 10) on track 0 by 3
      frames, with a clip at [10, 20) right after it and one at [0, 5) on
      track 1: on release the trimmed clip is [0, 7), the clip after it
      moves left 3 frames to [7, 17), and the clip before the ripple point
      stays where it was. */
  lemma RippleTrimCloses()
    ensures var store := [Some(ClipAt(0, 0, 10)), Some(ClipAt(0, 10, 20)), Some(ClipAt(1, 0, 5))];
      var g := GhostAt(0, 0, 0, 10).(outPoint := 7);
      var r := Release(Dragging(store, [g], Ripple, false, 0, 0, false), false).store;
      && r[0].Some? && r[0].value.timelineIn == 0 && r[0].value.timelineOut == 7
      && r[1].Some? && r[1].value.timelineIn == 7 && r[1].value.timelineOut == 17
      && r[2] == store[2]
  {
    var store := [Some(ClipAt(0, 0, 10)), Some(ClipAt(0, 10, 20)), Some(ClipAt(1, 0, 5))];
    var g := GhostAt(0, 0, 0, 10).(outPoint := 7);
    var e := Dragging(store, [g], Ripple, false, 0, 0, false);
    var p := PlanRipple([g], false);
    assert p.point == 7 && p.shift == -3;
    ReleaseRipples(e);
    MoveCommitPlaces(store, [g], false);
    assert IsGhostClip([g], 0);
    assert !IsGhostClip([g], 1) && !IsGhostClip([g], 2);
  }

  /** Snapping runs after the trim clamps and may move the delta again, by
      either edge. Trimming the in-edge of [20, 60) (clip_in 20) by -20
      frames is clamped to exactly frame 0 and clip_in 0; with snapping on,
      the untouched out-edge then lands 5 frames from a clip starting at 35
      and snaps to it, pulling the in-point to -5 and clip_in to -5. */
  lemma SnapUndoesTrimClamp()
    ensures var long := Media("long", 100, [Finite], []);
      var g := Ghost(Some(0), long, Finite, 20, 60, 0, 20, 20, 60, 0, 20, 40, 100);
      var store := [Some(Clip(long, Finite, "long", ImportColor, 0, 20, 60, 20, false)), Some(ClipAt(1, 35, 50))];
      var h := UpdateGhosts(Dragging(store, [g], Pointer, true, 1000, 0, true), -20, 0).ghosts[0];
      h.inPoint == -5 && h.clipIn == -5 && h.outPoint == 60
  {
    var long := Media("long", 100, [Finite], []);
    var g := Ghost(Some(0), long, Finite, 20, 60, 0, 20, 20, 60, 0, 20, 40, 100);
    var store := [Some(Clip(long, Finite, "long", ImportColor, 0, 20, 60, 20, false)), Some(ClipAt(1, 35, 50))];
    var e := Dragging(store, [g], Pointer, true, 1000, 0, true);
    var ctx := SnapContext(true, 1000, store);
    var t := TrimContext(true, false, [], [], ctx);
    assert ClampTrim(g, -20, t) == -20;
    assert SearchClips(g, -20, store, 1, 0) == Outcome(-25, SnapState(true, 35));
    assert ValidateSnapping(g, -20, ctx, SnapState(false, 0)).diff == -25;
    assert [g][1..] == [];
  }

  /** With snapping on, a snap can undo the ripple clamps of an in-edge
      trim. Pre-clip [0, 5) and post-clip [50, 52) share track 0; a ghost of
      [100, 200) on track 1 is in-trimmed by 50 frames with the ripple tool.
      The ripple clamp stops the delta at 45, which leaves the in-point 5
      frames from a clip starting at 150; the snap moves the delta to 50,
      and the rippled post-clip would then start 5 frames inside the
      pre-clip. */
  lemma SnapBreaksRippleClear()
    ensures var long := Media("long", 1000, [Finite], []);
      var g := Ghost(Some(2), long, Finite, 100, 200, 1, 0, 100, 200, 1, 0, 100, 1000);
      var store := [Some(ClipAt(0, 0, 5)), Some(ClipAt(0, 50, 52)),
                    Some(Clip(long, Finite, "long", ImportColor, 1, 100, 200, 0, false)), Some(ClipAt(2, 150, 160))];
      var e := Dragging(store, [g], Ripple, true, 1000, 2, true).(preClips := [0], postClips := [1]);
      var r := UpdateGhosts(e, 50, 0);
      && r.ghosts[0].inPoint == 150
      && !RippleInClear(r.ghosts[0].inPoint - g.oldIn, Resolve(store, e.preClips), Resolve(store, e.postClips))
  {
    var long := Media("long", 1000, [Finite], []);
    var g := Ghost(Some(2), long, Finite, 100, 200, 1, 0, 100, 200, 1, 0, 100, 1000);
    var store := [Some(ClipAt(0, 0, 5)), Some(ClipAt(0, 50, 52)),
                  Some(Clip(long, Finite, "long", ImportColor, 1, 100, 200, 0, false)), Some(ClipAt(2, 150, 160))];
    var pre, post := [store[0].value], [store[1].value];
    assert Resolve(store, [0]) == pre;
    assert Resolve(store, [1]) == post;
    var ctx := SnapContext(true, 1000, store);
    var t := TrimContext(true, true, pre, post, ctx);
    assert ClampTrimIn(g, 50) == 50;
    assert GuardPreIn(50, pre, post[0]) == 45 by { assert pre[1..] == []; }
    assert RippleClampIn(50, pre, post) == 45 by { assert post[1..] == []; }
    assert ClampTrim(g, 50, t) == 45;
    assert SearchClips(g, 45, store, 3, 0) == Outcome(50, SnapState(true, 150));
    assert SearchClips(g, 45, store, 0, 0) == SearchClips(g, 45, store, 3, 0);
    assert ValidateSnapping(g, 45, ctx, SnapState(false, 0)).diff == 50;
    assert [g][1..] == [];
  }
}
