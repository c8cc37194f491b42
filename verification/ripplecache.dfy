/** The ripple pre/post caches built when a ripple gesture starts: for every
    ghost, every clip that is not itself under edit goes to the pre-cache if
    it starts before the ghost's clip and to the post-cache otherwise,
    unless that cache already holds a clip on the same track. The program's
    "closer clip replaces the cached one" branch only rebinds a local
    pointer, so the clip kept for a track is the first one seen. */
module RippleCache {
  import opened Timeline

  /** Handles of the cached pre-clips and post-clips. */
  datatype Caches = Caches(pre: seq<nat>, post: seq<nat>)

  /** Whether the cache holds a live clip on track `t`. */
  predicate HasTrack(store: Store, cache: seq<nat>, t: int) {
    exists k :: 0 <= k < |cache| && Live(store, cache[k]) && store[cache[k]].value.track == t
  }

  /** A cache of live clips not under edit, at most one per track. */
  predicate WellFormed(store: Store, ghosts: seq<Ghost>, cache: seq<nat>) {
    && (forall k :: 0 <= k < |cache| ==> Live(store, cache[k]) && !IsGhostClip(ghosts, cache[k]))
    && (forall a, b :: 0 <= a < b < |cache| && Live(store, cache[a]) && Live(store, cache[b]) ==>
          store[cache[a]].value.track != store[cache[b]].value.track)
  }

  /** Adds clip h unless the cache already covers its track. */
  function AddFirst(store: Store, cache: seq<nat>, h: nat): (r: seq<nat>)
    requires Live(store, h)
    ensures HasTrack(store, r, store[h].value.track)
    ensures HasTrack(store, cache, store[h].value.track) ==> r == cache
    ensures !HasTrack(store, cache, store[h].value.track) ==> r == cache + [h]
  {
    if HasTrack(store, cache, store[h].value.track) then cache
    else
      assert (cache + [h])[|cache|] == h;
      cache + [h]
  }

  /** The loop over the store for one ghost whose clip is `c`, from slot j. */
  function ScanClips(store: Store, ghosts: seq<Ghost>, c: Clip, j: nat, acc: Caches): Caches
    decreases |store| - j
  {
    if j >= |store| then acc
    else if store[j].None? || IsGhostClip(ghosts, j) then ScanClips(store, ghosts, c, j + 1, acc)
    else if store[j].value.timelineIn < c.timelineIn then
      ScanClips(store, ghosts, c, j + 1, Caches(AddFirst(store, acc.pre, j), acc.post))
    else
      ScanClips(store, ghosts, c, j + 1, Caches(acc.pre, AddFirst(store, acc.post, j)))
  }

  /** The outer loop over the ghosts, from ghost i. */
  function ScanGhosts(store: Store, ghosts: seq<Ghost>, i: nat, acc: Caches): Caches
    requires GhostsLive(store, ghosts)
    decreases |ghosts| - i
  {
    if i >= |ghosts| then acc
    else ScanGhosts(store, ghosts, i + 1, ScanClips(store, ghosts, store[ghosts[i].clip.value].value, 0, acc))
  }

  /** Whether live clip h starts before (or, `before` false, at or after)
      the clip of some ghost. */
  predicate SidesWith(store: Store, ghosts: seq<Ghost>, h: nat, before: bool)
    requires Live(store, h)
  {
    exists i :: 0 <= i < |ghosts| && ghosts[i].clip.Some? && Live(store, ghosts[i].clip.value) &&
      (store[h].value.timelineIn < store[ghosts[i].clip.value].value.timelineIn) == before
  }

  lemma AddFirstFacts(store: Store, ghosts: seq<Ghost>, cache: seq<nat>, h: nat)
    requires Live(store, h)
    ensures var r := AddFirst(store, cache, h);
      && cache <= r && (r == cache || r == cache + [h])
      && HasTrack(store, r, store[h].value.track)
      && (forall t :: HasTrack(store, cache, t) ==> HasTrack(store, r, t))
      && (WellFormed(store, ghosts, cache) && !IsGhostClip(ghosts, h) ==> WellFormed(store, ghosts, r))
  {
    var r := AddFirst(store, cache, h);
    if r != cache {
      assert r[|cache|] == h;
      forall t | HasTrack(store, cache, t) ensures HasTrack(store, r, t) {
        var k :| 0 <= k < |cache| && Live(store, cache[k]) && store[cache[k]].value.track == t;
        assert r[k] == cache[k];
      }
    }
  }

  /** One ghost's scan only appends to the caches, keeps them well formed
      and keeps covered tracks covered. */
  lemma {:induction false} ScanClipsGrows(store: Store, ghosts: seq<Ghost>, c: Clip, j: nat, acc: Caches)
    ensures var r := ScanClips(store, ghosts, c, j, acc);
      && acc.pre <= r.pre && acc.post <= r.post
      && (WellFormed(store, ghosts, acc.pre) ==> WellFormed(store, ghosts, r.pre))
      && (WellFormed(store, ghosts, acc.post) ==> WellFormed(store, ghosts, r.post))
      && (forall t :: HasTrack(store, acc.pre, t) ==> HasTrack(store, r.pre, t))
      && (forall t :: HasTrack(store, acc.post, t) ==> HasTrack(store, r.post, t))
    decreases |store| - j
  {
    if j < |store| {
      if store[j].None? || IsGhostClip(ghosts, j) {
        ScanClipsGrows(store, ghosts, c, j + 1, acc);
      } else if store[j].value.timelineIn < c.timelineIn {
        AddFirstFacts(store, ghosts, acc.pre, j);
        ScanClipsGrows(store, ghosts, c, j + 1, Caches(AddFirst(store, acc.pre, j), acc.post));
      } else {
        AddFirstFacts(store, ghosts, acc.post, j);
        ScanClipsGrows(store, ghosts, c, j + 1, Caches(acc.pre, AddFirst(store, acc.post, j)));
      }
    }
  }

  /** After one ghost's scan from slot j, every clip not under edit from
      slot j on has its track covered in the cache of its side of `c`. */
  lemma {:induction false} ScanClipsCovers(store: Store, ghosts: seq<Ghost>, c: Clip, j: nat, acc: Caches)
    ensures var r := ScanClips(store, ghosts, c, j, acc);
      forall h :: j <= h < |store| && store[h].Some? && !IsGhostClip(ghosts, h) ==>
        if store[h].value.timelineIn < c.timelineIn
        then HasTrack(store, r.pre, store[h].value.track)
        else HasTrack(store, r.post, store[h].value.track)
    decreases |store| - j
  {
    if j < |store| {
      if store[j].None? || IsGhostClip(ghosts, j) {
        ScanClipsCovers(store, ghosts, c, j + 1, acc);
      } else if store[j].value.timelineIn < c.timelineIn {
        var next := Caches(AddFirst(store, acc.pre, j), acc.post);
        ScanClipsCovers(store, ghosts, c, j + 1, next);
        ScanClipsGrows(store, ghosts, c, j + 1, next);
      } else {
        var next := Caches(acc.pre, AddFirst(store, acc.post, j));
        ScanClipsCovers(store, ghosts, c, j + 1, next);
        ScanClipsGrows(store, ghosts, c, j + 1, next);
      }
    }
  }

  /** Each entry one ghost's scan appends is a live clip on the side of `c`
      it was filed under. */
  lemma {:induction false} ScanClipsSides(store: Store, ghosts: seq<Ghost>, c: Clip, j: nat, acc: Caches)
    ensures var r := ScanClips(store, ghosts, c, j, acc);
      && (forall k :: |acc.pre| <= k < |r.pre| ==> Live(store, r.pre[k]) && store[r.pre[k]].value.timelineIn < c.timelineIn)
      && (forall k :: |acc.post| <= k < |r.post| ==> Live(store, r.post[k]) && store[r.post[k]].value.timelineIn >= c.timelineIn)
    decreases |store| - j
  {
    if j < |store| {
      if store[j].None? || IsGhostClip(ghosts, j) {
        ScanClipsSides(store, ghosts, c, j + 1, acc);
        assert ScanClips(store, ghosts, c, j, acc) == ScanClips(store, ghosts, c, j + 1, acc);
      } else if store[j].value.timelineIn < c.timelineIn {
        var next := Caches(AddFirst(store, acc.pre, j), acc.post);
        ScanClipsSides(store, ghosts, c, j + 1, next);
        ScanClipsGrows(store, ghosts, c, j + 1, next);
        var r := ScanClips(store, ghosts, c, j, acc);
        assert forall k :: |acc.pre| <= k < |next.pre| ==> next.pre[k] == j;
        assert forall k :: |acc.pre| <= k < |next.pre| ==> r.pre[k] == next.pre[k];
      } else {
        var next := Caches(acc.pre, AddFirst(store, acc.post, j));
        ScanClipsSides(store, ghosts, c, j + 1, next);
        ScanClipsGrows(store, ghosts, c, j + 1, next);
        var r := ScanClips(store, ghosts, c, j, acc);
        assert forall k :: |acc.post| <= k < |next.post| ==> next.post[k] == j;
        assert forall k :: |acc.post| <= k < |next.post| ==> r.post[k] == next.post[k];
      }
    }
  }

  /** The ripple prep of mouseMoveEvent, appending to `start`: the caches
      only grow, every appended entry is a live clip that starts before
      (pre) or at or after (post) the clip of some ghost, and a cache that
      held one clip per track of clips not under edit still does. */
  function BuildCaches(store: Store, ghosts: seq<Ghost>, start: Caches): (r: Caches)
    requires GhostsLive(store, ghosts)
    ensures start.pre <= r.pre && start.post <= r.post
    ensures forall k :: |start.pre| <= k < |r.pre| ==> Live(store, r.pre[k]) && SidesWith(store, ghosts, r.pre[k], true)
    ensures forall k :: |start.post| <= k < |r.post| ==> Live(store, r.post[k]) && SidesWith(store, ghosts, r.post[k], false)
    ensures WellFormed(store, ghosts, start.pre) ==> WellFormed(store, ghosts, r.pre)
    ensures WellFormed(store, ghosts, start.post) ==> WellFormed(store, ghosts, r.post)
  {
    ScanGhostsGrows(store, ghosts, 0, start);
    ScanGhostsSound(store, ghosts, 0, start);
    ScanGhosts(store, ghosts, 0, start)
  }

  /** The outer loop only appends, keeps well-formedness and keeps every
      covered track covered. */
  lemma {:induction false} ScanGhostsGrows(store: Store, ghosts: seq<Ghost>, i: nat, acc: Caches)
    requires GhostsLive(store, ghosts)
    ensures var r := ScanGhosts(store, ghosts, i, acc);
      && acc.pre <= r.pre && acc.post <= r.post
      && (WellFormed(store, ghosts, acc.pre) ==> WellFormed(store, ghosts, r.pre))
      && (WellFormed(store, ghosts, acc.post) ==> WellFormed(store, ghosts, r.post))
      && (forall t :: HasTrack(store, acc.pre, t) ==> HasTrack(store, r.pre, t))
      && (forall t :: HasTrack(store, acc.post, t) ==> HasTrack(store, r.post, t))
    decreases |ghosts| - i
  {
    if i < |ghosts| {
      var c := store[ghosts[i].clip.value].value;
      ScanClipsGrows(store, ghosts, c, 0, acc);
      ScanGhostsGrows(store, ghosts, i + 1, ScanClips(store, ghosts, c, 0, acc));
    }
  }

  /** Every clip not under edit has its track covered on its side of every
      ghost from ghost i on. */
  lemma {:induction false} ScanGhostsCovers(store: Store, ghosts: seq<Ghost>, i: nat, acc: Caches)
    requires GhostsLive(store, ghosts)
    ensures var r := ScanGhosts(store, ghosts, i, acc);
      forall g, h :: i <= g < |ghosts| && 0 <= h < |store| && store[h].Some? && !IsGhostClip(ghosts, h) ==>
        if store[h].value.timelineIn < store[ghosts[g].clip.value].value.timelineIn
        then HasTrack(store, r.pre, store[h].value.track)
        else HasTrack(store, r.post, store[h].value.track)
    decreases |ghosts| - i
  {
    if i < |ghosts| {
      var c := store[ghosts[i].clip.value].value;
      var next := ScanClips(store, ghosts, c, 0, acc);
      ScanClipsCovers(store, ghosts, c, 0, acc);
      ScanGhostsGrows(store, ghosts, i + 1, next);
      ScanGhostsCovers(store, ghosts, i + 1, next);
    }
  }

  /** Every entry appended from ghost i on sits on its side of some
      ghost's clip. */
  lemma {:induction false} ScanGhostsSound(store: Store, ghosts: seq<Ghost>, i: nat, acc: Caches)
    requires GhostsLive(store, ghosts)
    ensures var r := ScanGhosts(store, ghosts, i, acc);
      && (forall k :: |acc.pre| <= k < |r.pre| ==> Live(store, r.pre[k]) && SidesWith(store, ghosts, r.pre[k], true))
      && (forall k :: |acc.post| <= k < |r.post| ==> Live(store, r.post[k]) && SidesWith(store, ghosts, r.post[k], false))
    decreases |ghosts| - i
  {
    if i < |ghosts| {
      var c := store[ghosts[i].clip.value].value;
      var next := ScanClips(store, ghosts, c, 0, acc);
      ScanClipsGrows(store, ghosts, c, 0, acc);
      ScanClipsSides(store, ghosts, c, 0, acc);
      ScanGhostsGrows(store, ghosts, i + 1, next);
      ScanGhostsSound(store, ghosts, i + 1, next);
      var r := ScanGhosts(store, ghosts, i, acc);
      forall k | |acc.pre| <= k < |next.pre| ensures Live(store, r.pre[k]) && SidesWith(store, ghosts, r.pre[k], true) {
        assert r.pre[k] == next.pre[k];
        assert store[r.pre[k]].value.timelineIn < store[ghosts[i].clip.value].value.timelineIn;
      }
      forall k | |acc.post| <= k < |next.post| ensures Live(store, r.post[k]) && SidesWith(store, ghosts, r.post[k], false) {
        assert r.post[k] == next.post[k];
        assert !(store[r.post[k]].value.timelineIn < store[ghosts[i].clip.value].value.timelineIn);
      }
    }
  }

  /** Ripple caches built from empty caches: each holds live clips not
      under edit, at most one per track; every pre-clip starts before the
      clip of some ghost and every post-clip at or after one; and every clip
      not under edit that starts before (at or after) some ghost's clip has
      its track represented in the pre-cache (post-cache). */
  lemma BuildCachesFacts(store: Store, ghosts: seq<Ghost>)
    requires GhostsLive(store, ghosts)
    ensures var r := BuildCaches(store, ghosts, Caches([], []));
      && WellFormed(store, ghosts, r.pre) && WellFormed(store, ghosts, r.post)
      && (forall k :: 0 <= k < |r.pre| ==> Live(store, r.pre[k]) && SidesWith(store, ghosts, r.pre[k], true))
      && (forall k :: 0 <= k < |r.post| ==> Live(store, r.post[k]) && SidesWith(store, ghosts, r.post[k], false))
      && (forall g, h :: 0 <= g < |ghosts| && 0 <= h < |store| && store[h].Some? && !IsGhostClip(ghosts, h) ==>
            if store[h].value.timelineIn < store[ghosts[g].clip.value].value.timelineIn
            then HasTrack(store, r.pre, store[h].value.track)
            else HasTrack(store, r.post, store[h].value.track))
  {
    var empty := Caches([], []);
    ScanGhostsGrows(store, ghosts, 0, empty);
    ScanGhostsCovers(store, ghosts, 0, empty);
    ScanGhostsSound(store, ghosts, 0, empty);
  }
}
