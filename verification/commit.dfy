/** Committing a gesture: the release handler turns the ghosts of a move or
    trim into clip edits (a move, or with Alt a duplicate), ripples the
    timeline for the ripple tool, and tears every gesture flag down; the
    drop handler turns import ghosts into new clips. */
module Commit {
  import opened Timeline
  import opened ClipStore

  /** Sets the undeletable flag of every ghost's clip to `locked`. */
  function SetLocks(store: Store, gs: seq<Ghost>, locked: bool): (r: Store)
    requires GhostsLive(store, gs)
    ensures |r| == |store|
    ensures forall h :: 0 <= h < |r| ==> (r[h].Some? <==> store[h].Some?)
    ensures forall h :: 0 <= h < |r| && store[h].Some? ==>
      r[h].value == store[h].value.(undeletable := if IsGhostClip(gs, h) then locked else store[h].value.undeletable)
    decreases |gs|
  {
    if |gs| == 0 then store
    else
      var h := gs[0].clip.value;
      var s := store[h := Some(store[h].value.(undeletable := locked))];
      assert forall k :: 1 <= k < |gs| ==> gs[k] == gs[1..][k - 1];
      var r := SetLocks(s, gs[1..], locked);
      assert forall x :: IsGhostClip(gs, x) <==> x == h || IsGhostClip(gs[1..], x);
      r
  }

  /** Every ghost's clip is live and locked. */
  predicate LockedLive(store: Store, gs: seq<Ghost>) {
    forall k :: 0 <= k < |gs| ==>
      gs[k].clip.Some? && Live(store, gs[k].clip.value) && store[gs[k].clip.value].value.undeletable
  }

  /** The clip `c` with the geometry of ghost `g`. */
  function Moved(c: Clip, g: Ghost): Clip {
    c.(timelineIn := g.inPoint, timelineOut := g.outPoint, track := g.track, clipIn := g.clipIn)
  }

  /** Steps 2 and 3 of a move, ghost by ghost: clear the ghost's target
      area (pointer tool only), then write the ghost's geometry onto its
      clip. Locked clips survive every clearing. */
  function MovePass(store: Store, gs: seq<Ghost>, clearArea: bool): (r: Store)
    requires LockedLive(store, gs)
    ensures |r| == |store|
    ensures forall h :: 0 <= h < |r| && store[h].Some? && store[h].value.undeletable ==>
      r[h].Some? && r[h].value.undeletable
    decreases |gs|
  {
    if |gs| == 0 then store
    else
      var g := gs[0];
      var s1 := if clearArea then DeleteArea(store, g.inPoint, g.outPoint, g.track) else store;
      var h := g.clip.value;
      var s2 := s1[h := Some(Moved(s1[h].value, g))];
      assert forall k :: 1 <= k < |gs| ==> gs[k] == gs[1..][k - 1];
      MovePass(s2, gs[1..], clearArea)
  }

  /** The whole non-duplicate move: lock, clear-and-move, unlock. */
  function MoveCommit(store: Store, gs: seq<Ghost>, clearArea: bool): (r: Store)
    requires GhostsLive(store, gs)
    ensures |r| == |store|
  {
    var locked := SetLocks(store, gs, true);
    var moved := MovePass(locked, gs, clearArea);
    SetLocks(moved, gs, false)
  }

  /** What a move pass does to each slot. Each ghost's clip ends with the
      ghost's geometry and its lock. Any other clip is kept, or removed when
      areas are cleared and it was not locked. */
  lemma {:induction false} MovePassFacts(store: Store, gs: seq<Ghost>, clearArea: bool)
    requires LockedLive(store, gs) && DistinctClips(gs)
    ensures var r := MovePass(store, gs, clearArea);
      && (forall k :: 0 <= k < |gs| ==>
            r[gs[k].clip.value] == Some(Moved(store[gs[k].clip.value].value, gs[k])))
      && (forall h :: 0 <= h < |store| && !IsGhostClip(gs, h) ==>
            r[h] == store[h] || (clearArea && r[h] == None && !store[h].value.undeletable))
    decreases |gs|
  {
    if |gs| > 0 {
      var g := gs[0];
      var s1 := if clearArea then DeleteArea(store, g.inPoint, g.outPoint, g.track) else store;
      var h0 := g.clip.value;
      var s2 := s1[h0 := Some(Moved(s1[h0].value, g))];
      var rest := gs[1..];
      assert forall k :: 1 <= k < |gs| ==> gs[k] == rest[k - 1];
      assert LockedLive(s2, rest) by {
        forall k | 0 <= k < |rest|
          ensures rest[k].clip.Some? && Live(s2, rest[k].clip.value) && s2[rest[k].clip.value].value.undeletable
        {
          assert rest[k] == gs[k + 1];
        }
      }
      assert DistinctClips(rest) by {
        forall a, b | 0 <= a < b < |rest| && rest[a].clip.Some? && rest[b].clip.Some?
          ensures rest[a].clip.value != rest[b].clip.value
        {
          assert rest[a] == gs[a + 1] && rest[b] == gs[b + 1];
        }
      }
      MovePassFacts(s2, rest, clearArea);
      var r := MovePass(s2, rest, clearArea);
      assert r == MovePass(store, gs, clearArea);
      assert !IsGhostClip(rest, h0) by {
        forall k | 0 <= k < |rest| ensures rest[k].clip != Some(h0) {
          assert rest[k] == gs[k + 1];
        }
      }
      assert s1[h0] == store[h0];
      forall k | 0 <= k < |gs|
        ensures r[gs[k].clip.value] == Some(Moved(store[gs[k].clip.value].value, gs[k]))
      {
        if k > 0 {
          assert gs[k].clip.value != h0;
          assert s2[gs[k].clip.value] == store[gs[k].clip.value];
        }
      }
      forall h | 0 <= h < |store| && !IsGhostClip(gs, h)
        ensures r[h] == store[h] || (clearArea && r[h] == None && !store[h].value.undeletable)
      {
        assert h != h0;
        forall k | 0 <= k < |rest| ensures rest[k].clip != Some(h) {
          assert rest[k] == gs[k + 1];
        }
      }
    }
  }

  /** A non-duplicate move commit, given ghosts of distinct live clips: every
      ghost's clip ends with exactly the ghost's in, out, track and clip_in
      and is deletable again; every other clip is kept, or with areas
      cleared removed when it was deletable; no slot gains a clip. */
  lemma MoveCommitPlaces(store: Store, gs: seq<Ghost>, clearArea: bool)
    requires GhostsLive(store, gs) && DistinctClips(gs)
    ensures var r := MoveCommit(store, gs, clearArea);
      && (forall k :: 0 <= k < |gs| ==>
            var c := store[gs[k].clip.value].value;
            r[gs[k].clip.value] == Some(Moved(c, gs[k]).(undeletable := false)))
      && (forall h :: 0 <= h < |store| && !IsGhostClip(gs, h) ==>
            r[h] == store[h] || (clearArea && r[h] == None && !store[h].value.undeletable))
      && (!clearArea ==> forall h :: 0 <= h < |store| ==> (r[h].Some? <==> store[h].Some?))
  {
    var locked := SetLocks(store, gs, true);
    assert forall k :: 0 <= k < |gs| ==> IsGhostClip(gs, gs[k].clip.value);
    assert LockedLive(locked, gs);
    MovePassFacts(locked, gs, clearArea);
  }

  /** The copy a duplicate leaves for ghost `g` of clip `c`: the clip moved
      to the ghost's in, out and track, keeping its own clip_in. */
  function DuplicateOf(c: Clip, g: Ghost): Clip {
    Place(c, g.inPoint, g.outPoint, g.track).(undeletable := false)
  }

  /** The clip `c` stays clear of the target area of every ghost in `gs`. */
  predicate Untouched(c: Clip, gs: seq<Ghost>) {
    forall m :: 0 <= m < |gs| ==> !Overlaps(c, gs[m].inPoint, gs[m].outPoint, gs[m].track)
  }

  /** The duplicate path, ghost by ghost: append a locked copy of the ghost's
      clip (taken from `orig`, the store as the release found it) at the
      ghost's geometry, clear the ghost's target area around it, unlock it. */
  function DuplicatePass(orig: Store, store: Store, gs: seq<Ghost>): (r: Store)
    requires GhostsLive(orig, gs)
    ensures |r| == |store| + |gs|
    decreases |gs|
  {
    if |gs| == 0 then store
    else
      var g := gs[0];
      var c := Place(orig[g.clip.value].value, g.inPoint, g.outPoint, g.track).(undeletable := true);
      var s1 := DeleteArea(store + [Some(c)], g.inPoint, g.outPoint, g.track);
      assert s1[|store|] == Some(c);
      var s2 := s1[|store| := Some(c.(undeletable := false))];
      assert forall k :: 1 <= k < |gs| ==> gs[k] == gs[1..][k - 1];
      DuplicatePass(orig, s2, gs[1..])
  }

  function Duplicate(store: Store, gs: seq<Ghost>): (r: Store)
    requires GhostsLive(store, gs)
    ensures |r| == |store| + |gs|
  {
    DuplicatePass(store, store, gs)
  }

  /** What the duplicate pass does to each slot. A clip already there is
      kept, or removed if it was deletable and in some ghost's area, and it
      is kept when it lies clear of every area. The k-th new slot holds the
      copy for ghost k or is empty, and it holds the copy when the copy
      lies clear of the areas of the ghosts after k. */
  lemma {:induction false} DuplicatePassFacts(orig: Store, store: Store, gs: seq<Ghost>)
    requires GhostsLive(orig, gs)
    ensures var r := DuplicatePass(orig, store, gs);
      && (forall h :: 0 <= h < |store| ==>
            r[h] == store[h] || (r[h] == None && store[h].Some? && !store[h].value.undeletable))
      && (forall h :: 0 <= h < |store| && store[h].Some? && Untouched(store[h].value, gs) ==> r[h] == store[h])
      && (forall k :: 0 <= k < |gs| ==>
            var d := DuplicateOf(orig[gs[k].clip.value].value, gs[k]);
            && (r[|store| + k] == None || r[|store| + k] == Some(d))
            && (Untouched(d, gs[k + 1..]) ==> r[|store| + k] == Some(d)))
    decreases |gs|
  {
    if |gs| > 0 {
      var g := gs[0];
      var c := Place(orig[g.clip.value].value, g.inPoint, g.outPoint, g.track).(undeletable := true);
      var s0 := store + [Some(c)];
      var s1 := DeleteArea(s0, g.inPoint, g.outPoint, g.track);
      assert s0[|store|] == Some(c);
      var s2 := s1[|store| := Some(c.(undeletable := false))];
      var rest := gs[1..];
      assert forall k :: 1 <= k < |gs| ==> gs[k] == rest[k - 1];
      assert GhostsLive(orig, rest) by {
        forall k | 0 <= k < |rest| ensures rest[k].clip.Some? && Live(orig, rest[k].clip.value) {
          assert rest[k] == gs[k + 1];
        }
      }
      DuplicatePassFacts(orig, s2, rest);
      var r := DuplicatePass(orig, s2, rest);
      assert r == DuplicatePass(orig, store, gs);
      forall h | 0 <= h < |store| && store[h].Some? && Untouched(store[h].value, gs)
        ensures r[h] == store[h]
      {
        assert !Overlaps(store[h].value, gs[0].inPoint, gs[0].outPoint, gs[0].track);
        assert s0[h] == store[h];
        assert Untouched(store[h].value, rest) by {
          forall m | 0 <= m < |rest|
            ensures !Overlaps(store[h].value, rest[m].inPoint, rest[m].outPoint, rest[m].track)
          {
            assert rest[m] == gs[m + 1];
          }
        }
      }
      forall h | 0 <= h < |store|
        ensures r[h] == store[h] || (r[h] == None && store[h].Some? && !store[h].value.undeletable)
      {
        assert s0[h] == store[h];
      }
      forall k | 0 <= k < |gs|
        ensures var d := DuplicateOf(orig[gs[k].clip.value].value, gs[k]);
          && (r[|store| + k] == None || r[|store| + k] == Some(d))
          && (Untouched(d, gs[k + 1..]) ==> r[|store| + k] == Some(d))
      {
        if k == 0 {
          assert s2[|store|] == Some(DuplicateOf(orig[g.clip.value].value, g));
          assert gs[1..] == rest;
        } else {
          assert |s2| == |store| + 1;
          assert |s2| + (k - 1) == |store| + k;
          assert gs[k] == rest[k - 1];
          assert gs[k + 1..] == rest[k - 1 + 1..];
        }
      }
    }
  }

  /** The target areas of the ghosts are pairwise disjoint. */
  predicate AreasApart(gs: seq<Ghost>) {
    forall a, b :: 0 <= a < b < |gs| ==>
      gs[a].track != gs[b].track || gs[a].outPoint <= gs[b].inPoint || gs[b].outPoint <= gs[a].inPoint
  }

  lemma UntouchedSuffix(c: Clip, gs: seq<Ghost>, j: nat)
    requires j <= |gs|
    requires forall m :: j <= m < |gs| ==> !Overlaps(c, gs[m].inPoint, gs[m].outPoint, gs[m].track)
    ensures Untouched(c, gs[j..])
  {
    assert forall m :: j <= m < |gs| ==> gs[j..][m - j] == gs[m];
  }

  /** The Alt-duplicate commit leaves one slot per ghost after the old
      ones. The copy for the last ghost is always there, and every copy is
      there when the ghosts' target areas are pairwise disjoint. Old clips
      are kept or, when deletable, removed. */
  lemma DuplicateAppends(store: Store, gs: seq<Ghost>)
    requires GhostsLive(store, gs)
    ensures var r := Duplicate(store, gs);
      && (forall h :: 0 <= h < |store| ==>
            r[h] == store[h] || (r[h] == None && !store[h].value.undeletable))
      && (|gs| > 0 ==> r[|r| - 1] == Some(DuplicateOf(store[gs[|gs| - 1].clip.value].value, gs[|gs| - 1])))
      && (AreasApart(gs) ==>
          forall k :: 0 <= k < |gs| ==> r[|store| + k] == Some(DuplicateOf(store[gs[k].clip.value].value, gs[k])))
  {
    var r := Duplicate(store, gs);
    assert forall h :: 0 <= h < |store| ==>
      r[h] == store[h] || (r[h] == None && !store[h].value.undeletable) by {
      DuplicatePassFacts(store, store, gs);
    }
    if |gs| > 0 {
      var last := |gs| - 1;
      var d := DuplicateOf(store[gs[last].clip.value].value, gs[last]);
      assert r[|r| - 1] == Some(d) by {
        DuplicatePassFacts(store, store, gs);
        assert Untouched(d, gs[last + 1..]) by {
          assert gs[last + 1..] == [];
        }
        assert |r| - 1 == |store| + last;
      }
    }
    if AreasApart(gs) {
      forall k | 0 <= k < |gs|
        ensures r[|store| + k] == Some(DuplicateOf(store[gs[k].clip.value].value, gs[k]))
      {
        DuplicatePassFacts(store, store, gs);
        UntouchedSuffix(DuplicateOf(store[gs[k].clip.value].value, gs[k]), gs, k + 1);
      }
    }
  }

  /** Where and how far a ripple commit moves the timeline. */
  datatype RipplePlan = RipplePlan(point: int, length: int, shift: int)

  /** The edge of ghost `g` the ripple point is compared against: the edge
      being trimmed, at its old position when the trim lengthened the clip
      (length < 0) and at its new one otherwise. */
  function RippleEdge(g: Ghost, trimIn: bool, length: int): int {
    if trimIn then (if length < 0 then g.oldIn else g.inPoint)
    else (if length < 0 then g.oldOut else g.outPoint)
  }

  /** The least of `point` and the ripple edges of `gs`. */
  function LeastEdge(gs: seq<Ghost>, trimIn: bool, length: int, point: int): (r: int)
    ensures r <= point
    ensures forall i :: 0 <= i < |gs| ==> r <= RippleEdge(gs[i], trimIn, length)
    ensures r == point || exists i :: 0 <= i < |gs| && r == RippleEdge(gs[i], trimIn, length)
    decreases |gs|
  {
    if |gs| == 0 then point
    else
      var c := RippleEdge(gs[0], trimIn, length);
      var r := LeastEdge(gs[1..], trimIn, length, if point > c then c else point);
      assert forall i :: 1 <= i < |gs| ==> gs[i] == gs[1..][i - 1];
      r
  }

  /** The ripple of a release: the first ghost's trim length (old edge minus
      new edge), the earliest ripple edge over all ghosts, and the shift that
      closes the gap (in-edge) or opens it (out-edge). */
  function PlanRipple(gs: seq<Ghost>, trimIn: bool): (r: RipplePlan)
    requires |gs| > 0
    ensures r.length == if trimIn then gs[0].oldIn - gs[0].inPoint else gs[0].oldOut - gs[0].outPoint
    ensures r.shift == if trimIn then r.length else -r.length
    ensures forall i :: 0 <= i < |gs| ==> r.point <= RippleEdge(gs[i], trimIn, r.length)
    ensures exists i :: 0 <= i < |gs| && r.point == RippleEdge(gs[i], trimIn, r.length)
  {
    var length := if trimIn then gs[0].oldIn - gs[0].inPoint else gs[0].oldOut - gs[0].outPoint;
    var point := LeastEdge(gs, trimIn, length, RippleEdge(gs[0], trimIn, length));
    RipplePlan(point, length, if trimIn then length else -length)
  }

  /** The clip edits a release makes: none unless a move or trim is in
      flight; then the duplicate or the move, followed for the ripple tool by
      the ripple of everything at or after the ripple point. */
  function ReleaseStore(e: Editor, alt: bool): (r: Store)
    requires e.movingProc ==> GhostsLive(e.store, e.ghosts)
    ensures !e.movingProc ==> r == e.store
    ensures e.movingProc && !alt ==> |r| == |e.store|
    ensures e.movingProc && alt ==> |r| == |e.store| + |e.ghosts|
  {
    if !e.movingProc then e.store
    else
      var moved := if alt then Duplicate(e.store, e.ghosts) else MoveCommit(e.store, e.ghosts, e.tool == Pointer);
      if e.tool == Ripple && |e.ghosts| > 0 then
        var p := PlanRipple(e.ghosts, e.trimIn);
        RippleShift(moved, p.point, p.shift)
      else moved
  }

  /** Mouse release: commit the gesture in flight, then leave every gesture
      flag down and every ghost and ripple cache empty, whatever the
      gesture was. Tool, selections and playhead are untouched. */
  function Release(e: Editor, alt: bool): (r: Editor)
    requires e.movingProc ==> GhostsLive(e.store, e.ghosts)
    ensures Idle(r)
    ensures !e.movingProc ==> r.store == e.store
    ensures r.tool == e.tool && r.selections == e.selections && r.playhead == e.playhead && r.importing == e.importing
  {
    e.(store := ReleaseStore(e, alt), ghosts := [], preClips := [], postClips := [],
       selecting := false, movingProc := false, movingInit := false, splitting := false, snapped := false)
  }

  /** A plain move released with the pointer tool: each ghost's clip takes
      the ghost's geometry and is deletable again, other clips are kept
      unless the move landed on them, and the store keeps its size. */
  lemma ReleaseCommitsMove(e: Editor)
    requires e.movingProc && e.tool == Pointer && GhostsLive(e.store, e.ghosts) && DistinctClips(e.ghosts)
    ensures var r := Release(e, false);
      && |r.store| == |e.store|
      && (forall k :: 0 <= k < |e.ghosts| ==>
            var g := e.ghosts[k];
            var c := r.store[g.clip.value];
            && c.Some?
            && c.value.timelineIn == g.inPoint && c.value.timelineOut == g.outPoint
            && c.value.track == g.track && c.value.clipIn == g.clipIn
            && !c.value.undeletable)
      && (forall h :: 0 <= h < |e.store| && !IsGhostClip(e.ghosts, h) ==>
            r.store[h] == e.store[h] || (r.store[h] == None && !e.store[h].value.undeletable))
  {
    MoveCommitPlaces(e.store, e.ghosts, true);
  }

  /** A ripple-tool release: moving never deletes (areas are not cleared),
      and then every clip starting at or after the ripple point moves by the
      planned shift while every clip before it keeps its place. */
  lemma ReleaseRipples(e: Editor)
    requires e.movingProc && e.tool == Ripple && |e.ghosts| > 0
    requires GhostsLive(e.store, e.ghosts) && DistinctClips(e.ghosts)
    ensures var r := Release(e, false);
      var p := PlanRipple(e.ghosts, e.trimIn);
      var m := MoveCommit(e.store, e.ghosts, false);
      && |r.store| == |e.store|
      && (forall h :: 0 <= h < |e.store| ==> (r.store[h].Some? <==> e.store[h].Some?))
      && (forall h :: 0 <= h < |e.store| && m[h].Some? && m[h].value.timelineIn < p.point ==> r.store[h] == m[h])
      && (forall h :: 0 <= h < |e.store| && m[h].Some? && m[h].value.timelineIn >= p.point ==>
            r.store[h].value.timelineIn == m[h].value.timelineIn + p.shift
            && r.store[h].value.timelineOut == m[h].value.timelineOut + p.shift
            && r.store[h].value.track == m[h].value.track)
  {
    MoveCommitPlaces(e.store, e.ghosts, false);
  }

  /** The clip the drop handler creates from import ghost `g`. */
  function Imported(g: Ghost): Clip {
    Clip(g.media, g.stream, g.media.name, ImportColor, g.track, g.inPoint, g.outPoint, g.clipIn, false)
  }

  /** The drop, ghost by ghost: clear the ghost's area, then append its clip. */
  function DropPass(store: Store, gs: seq<Ghost>): (r: Store)
    ensures |r| == |store| + |gs|
    decreases |gs|
  {
    if |gs| == 0 then store
    else
      var g := gs[0];
      DropPass(DeleteArea(store, g.inPoint, g.outPoint, g.track) + [Some(Imported(g))], gs[1..])
  }

  /** What the drop does to each slot. A clip already there is kept, or
      removed if it was deletable; it is kept when it lies clear of every
      ghost's area. The k-th new slot holds ghost k's clip or is empty, and
      holds it when that clip lies clear of the areas of the ghosts after k. */
  lemma {:induction false} DropPassFacts(store: Store, gs: seq<Ghost>)
    ensures var r := DropPass(store, gs);
      && (forall h :: 0 <= h < |store| ==>
            r[h] == store[h] || (r[h] == None && store[h].Some? && !store[h].value.undeletable))
      && (forall h :: 0 <= h < |store| && store[h].Some? && Untouched(store[h].value, gs) ==> r[h] == store[h])
      && (forall k :: 0 <= k < |gs| ==>
            && (r[|store| + k] == None || r[|store| + k] == Some(Imported(gs[k])))
            && (Untouched(Imported(gs[k]), gs[k + 1..]) ==> r[|store| + k] == Some(Imported(gs[k]))))
    decreases |gs|
  {
    if |gs| > 0 {
      var g := gs[0];
      var s1 := DeleteArea(store, g.inPoint, g.outPoint, g.track);
      var s2 := s1 + [Some(Imported(g))];
      var rest := gs[1..];
      assert forall k :: 1 <= k < |gs| ==> gs[k] == rest[k - 1];
      DropPassFacts(s2, rest);
      var r := DropPass(s2, rest);
      assert r == DropPass(store, gs);
      forall h | 0 <= h < |store| && store[h].Some? && Untouched(store[h].value, gs)
        ensures r[h] == store[h]
      {
        assert !Overlaps(store[h].value, gs[0].inPoint, gs[0].outPoint, gs[0].track);
        assert s2[h] == store[h];
        assert Untouched(store[h].value, rest) by {
          forall m | 0 <= m < |rest|
            ensures !Overlaps(store[h].value, rest[m].inPoint, rest[m].outPoint, rest[m].track)
          {
            assert rest[m] == gs[m + 1];
          }
        }
      }
      forall h | 0 <= h < |store|
        ensures r[h] == store[h] || (r[h] == None && store[h].Some? && !store[h].value.undeletable)
      {
        assert s2[h] == s1[h];
      }
      forall k | 0 <= k < |gs|
        ensures && (r[|store| + k] == None || r[|store| + k] == Some(Imported(gs[k])))
                && (Untouched(Imported(gs[k]), gs[k + 1..]) ==> r[|store| + k] == Some(Imported(gs[k])))
      {
        if k == 0 {
          assert s2[|store|] == Some(Imported(g));
          assert gs[1..] == rest;
        } else {
          assert |s2| + (k - 1) == |store| + k;
          assert gs[k] == rest[k - 1];
          assert gs[k + 1..] == rest[k - 1 + 1..];
        }
      }
    }
  }

  /** The drop handler: only during an import, every ghost becomes a new
      clip (its area cleared first), and the import ends with no ghosts and
      no snap. Outside an import nothing happens. */
  function Drop(e: Editor): (r: Editor)
    ensures !e.importing ==> r == e
    ensures e.importing ==> r.ghosts == [] && !r.importing && !r.snapped && |r.store| == |e.store| + |e.ghosts|
    ensures r.selections == e.selections && r.tool == e.tool
  {
    if !e.importing then e
    else e.(store := DropPass(e.store, e.ghosts), ghosts := [], importing := false, snapped := false)
  }

  /** A drop of ghosts whose areas are pairwise disjoint creates exactly one
      clip per ghost, named after its media, in the import colour, with the
      ghost's geometry; earlier clips are kept or, when deletable, removed,
      and kept when clear of every ghost's area. */
  lemma DropCreatesClips(e: Editor)
    requires e.importing
    requires AreasApart(e.ghosts)
    ensures var r := Drop(e);
      && (forall k :: 0 <= k < |e.ghosts| ==>
            var g := e.ghosts[k];
            r.store[|e.store| + k] == Some(Clip(g.media, g.stream, g.media.name, ImportColor, g.track, g.inPoint, g.outPoint, g.clipIn, false)))
      && (forall h :: 0 <= h < |e.store| ==>
            r.store[h] == e.store[h] || (r.store[h] == None && !e.store[h].value.undeletable))
      && (forall h :: 0 <= h < |e.store| && e.store[h].Some? && Untouched(e.store[h].value, e.ghosts) ==> r.store[h] == e.store[h])
  {
    var gs := e.ghosts;
    DropPassFacts(e.store, gs);
    forall k | 0 <= k < |gs| ensures Untouched(Imported(gs[k]), gs[k + 1..]) {
      UntouchedSuffix(Imported(gs[k]), gs, k + 1);
    }
  }
}
