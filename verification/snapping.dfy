/** The snap resolver (subvalidate_snapping and validate_snapping): given the
    frame delta proposed for a ghost, look for a candidate frame (the
    playhead, then every clip's in-point and out-point, in store order) that
    the ghost's old in-edge or old out-edge would land within the snapping
    window of, and adjust the delta so that edge lands on it exactly. */
module Snapping {
  import opened Timeline

  /** Whether a signed distance lies strictly inside the snapping window. */
  predicate Near(d: int) {
    -SnapRange < d < SnapRange
  }

  /** Whether ghost `g` shifted by `diff` has an edge near candidate `p`. */
  predicate Reaches(g: Ghost, diff: int, p: int) {
    Near(g.oldIn + diff - p) || Near(g.oldOut + diff - p)
  }

  /** Outcome of trying one candidate. */
  datatype Attempt = Attempt(snapped: bool, diff: int)

  /** subvalidate_snapping: try candidate `p`, in-edge first. On failure the
      delta is untouched; on success the chosen edge lands exactly on `p`
      and the delta moved by less than the window. */
  function SnapTo(g: Ghost, diff: int, p: int): (r: Attempt)
    ensures r.snapped <==> Reaches(g, diff, p)
    ensures !r.snapped ==> r.diff == diff
    ensures r.snapped && Near(g.oldIn + diff - p) ==> g.oldIn + r.diff == p
    ensures r.snapped && !Near(g.oldIn + diff - p) ==> g.oldOut + r.diff == p
    ensures -SnapRange < r.diff - diff < SnapRange
  {
    var inValidator := g.oldIn + diff - p;
    var outValidator := g.oldOut + diff - p;
    if Near(inValidator) then Attempt(true, diff - inValidator)
    else if Near(outValidator) then Attempt(true, diff - outValidator)
    else Attempt(false, diff)
  }

  /** The editor's visible snap state: whether the last resolution snapped,
      and the last frame snapped to. */
  datatype SnapState = SnapState(snapped: bool, point: int)

  /** The delta after snapping, and the snap state left behind. */
  datatype Outcome = Outcome(diff: int, state: SnapState)

  /** What the resolver reads from the editor. */
  datatype SnapContext = SnapContext(enabled: bool, playhead: int, store: Store)

  /** Whether an outcome is a legal snap of `diff` for ghost `g`: either
      nothing snapped and the delta is kept, or an edge landed on the
      recorded point after a move of less than the window. */
  predicate Resolved(g: Ghost, diff: int, prior: int, r: Outcome) {
    if r.state.snapped then
      && (g.oldIn + r.diff == r.state.point || g.oldOut + r.diff == r.state.point)
      && Near(r.diff - diff)
    else
      r.diff == diff && r.state.point == prior
  }

  /** The loop over the clip store in validate_snapping, from slot j on:
      each clip's in-point is tried before its out-point, and the search
      stops at the first snap. */
  function SearchClips(g: Ghost, diff: int, store: Store, j: nat, prior: int): (r: Outcome)
    ensures Resolved(g, diff, prior, r)
    ensures r.state.snapped ==>
      exists k :: j <= k < |store| && store[k].Some? && r.state.point in {store[k].value.timelineIn, store[k].value.timelineOut}
    ensures !r.state.snapped <==>
      forall k :: j <= k < |store| && store[k].Some? ==>
        !Reaches(g, diff, store[k].value.timelineIn) && !Reaches(g, diff, store[k].value.timelineOut)
    decreases |store| - j
  {
    if j >= |store| then Outcome(diff, SnapState(false, prior))
    else if store[j].None? then SearchClips(g, diff, store, j + 1, prior)
    else
      var c := store[j].value;
      var a := SnapTo(g, diff, c.timelineIn);
      if a.snapped then Outcome(a.diff, SnapState(true, c.timelineIn))
      else
        var b := SnapTo(g, diff, c.timelineOut);
        if b.snapped then Outcome(b.diff, SnapState(true, c.timelineOut))
        else SearchClips(g, diff, store, j + 1, prior)
  }

  /** validate_snapping. The snapped flag is reset first; the snap point is
      only written when a snap happens. */
  function ValidateSnapping(g: Ghost, diff: int, ctx: SnapContext, prior: SnapState): (r: Outcome)
    ensures Resolved(g, diff, prior.point, r)
    ensures !ctx.enabled ==> r == Outcome(diff, SnapState(false, prior.point))
  {
    if !ctx.enabled then Outcome(diff, SnapState(false, prior.point))
    else
      var a := SnapTo(g, diff, ctx.playhead);
      if a.snapped then Outcome(a.diff, SnapState(true, ctx.playhead))
      else
        SnapAlongResolves(g, diff, ClipEdges(ctx.store, 0), prior.point);
        SearchClipsIsSnapAlong(g, diff, ctx.store, 0, prior.point);
        SearchClips(g, diff, ctx.store, 0, prior.point)
  }

  // ---------------------------------------------------------------------
  // Reference definition: candidates as one flat list, tried in order.

  /** The in- and out-points of the clips in slots j.. of the store, in
      the order the resolver tries them. */
  function ClipEdges(store: Store, j: nat): (r: seq<int>)
    decreases |store| - j
  {
    if j >= |store| then []
    else if store[j].None? then ClipEdges(store, j + 1)
    else [store[j].value.timelineIn, store[j].value.timelineOut] + ClipEdges(store, j + 1)
  }

  /** Every candidate the resolver tries, in order. */
  function Candidates(playhead: int, store: Store): seq<int> {
    [playhead] + ClipEdges(store, 0)
  }

  /** Index of the first candidate the ghost reaches; |cs| when none. */
  function FirstReach(g: Ghost, diff: int, cs: seq<int>): (k: nat)
    ensures k <= |cs|
    ensures k < |cs| ==> Reaches(g, diff, cs[k])
    ensures forall m :: 0 <= m < k ==> !Reaches(g, diff, cs[m])
  {
    if |cs| == 0 then 0
    else if Reaches(g, diff, cs[0]) then 0
    else 1 + FirstReach(g, diff, cs[1..])
  }

  /** Trying the candidates of `cs` in order, stopping at the first snap. */
  function SnapAlong(g: Ghost, diff: int, cs: seq<int>, prior: int): Outcome {
    if |cs| == 0 then Outcome(diff, SnapState(false, prior))
    else
      var a := SnapTo(g, diff, cs[0]);
      if a.snapped then Outcome(a.diff, SnapState(true, cs[0]))
      else SnapAlong(g, diff, cs[1..], prior)
  }

  /** Trying candidates in order snaps to exactly the first reachable one,
      and to nothing when none is reachable. */
  lemma {:induction false} SnapAlongIsFirstReach(g: Ghost, diff: int, cs: seq<int>, prior: int)
    ensures var k := FirstReach(g, diff, cs);
      SnapAlong(g, diff, cs, prior) ==
        if k < |cs| then Outcome(SnapTo(g, diff, cs[k]).diff, SnapState(true, cs[k]))
        else Outcome(diff, SnapState(false, prior))
  {
    if |cs| > 0 && !Reaches(g, diff, cs[0]) {
      SnapAlongIsFirstReach(g, diff, cs[1..], prior);
      assert cs[1..][FirstReach(g, diff, cs[1..])..] == cs[FirstReach(g, diff, cs)..];
    }
  }

  lemma SnapAlongResolves(g: Ghost, diff: int, cs: seq<int>, prior: int)
    ensures Resolved(g, diff, prior, SnapAlong(g, diff, cs, prior))
  {
    SnapAlongIsFirstReach(g, diff, cs, prior);
  }

  /** The clip loop of validate_snapping is the in-order search over the
      clips' edges. */
  lemma {:induction false} SearchClipsIsSnapAlong(g: Ghost, diff: int, store: Store, j: nat, prior: int)
    ensures SearchClips(g, diff, store, j, prior) == SnapAlong(g, diff, ClipEdges(store, j), prior)
    decreases |store| - j
  {
    if j < |store| {
      SearchClipsIsSnapAlong(g, diff, store, j + 1, prior);
      if store[j].Some? {
        var c := store[j].value;
        var cs := [c.timelineIn, c.timelineOut] + ClipEdges(store, j + 1);
        assert cs[1..][1..] == ClipEdges(store, j + 1);
      }
    }
  }

  /** validate_snapping with snapping enabled snaps exactly when some
      candidate (playhead, then clip edges in store order) is within reach;
      it then snaps to the FIRST such candidate, landing that ghost's in-edge
      on it if the in-edge reaches it and the out-edge otherwise. */
  lemma SnapsToFirstCandidate(g: Ghost, diff: int, ctx: SnapContext, prior: SnapState)
    requires ctx.enabled
    ensures var r := ValidateSnapping(g, diff, ctx, prior);
      var cs := Candidates(ctx.playhead, ctx.store);
      var k := FirstReach(g, diff, cs);
      && (r.state.snapped <==> exists m :: 0 <= m < |cs| && Reaches(g, diff, cs[m]))
      && (r.state.snapped ==>
            && k < |cs| && r.state.point == cs[k]
            && (forall m :: 0 <= m < k ==> !Reaches(g, diff, cs[m]))
            && (Near(g.oldIn + diff - cs[k]) ==> g.oldIn + r.diff == cs[k])
            && (!Near(g.oldIn + diff - cs[k]) ==> g.oldOut + r.diff == cs[k]))
      && (!r.state.snapped ==> r.diff == diff && r.state.point == prior.point)
  {
    var cs := Candidates(ctx.playhead, ctx.store);
    SearchClipsIsSnapAlong(g, diff, ctx.store, 0, prior.point);
    assert cs[1..] == ClipEdges(ctx.store, 0);
    SnapAlongIsFirstReach(g, diff, cs, prior.point);
  }
}
