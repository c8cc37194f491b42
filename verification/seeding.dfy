/** Ghost seeding: the ghosts a drag-import lays out on the timeline
    (dragEnterEvent), the ghosts a move or trim creates from the selected
    clips (mouseMoveEvent), and the snapshot init_ghosts takes of them. */
module Seeding {
  import opened Timeline

  // ---------------------------------------------------------------------
  // init_ghosts

  /** Takes one ghost's snapshot; a trim also caches its length and the
      length of its media. */
  function InitGhost(g: Ghost, trimming: bool): (r: Ghost)
    ensures r.clip == g.clip && r.media == g.media && r.stream == g.stream
    ensures r.inPoint == g.inPoint && r.outPoint == g.outPoint && r.track == g.track && r.clipIn == g.clipIn
    ensures SnapshotOf(r) == Snapshot(g.clip, g.inPoint, g.outPoint, g.track, g.clipIn)
    ensures trimming ==> r.ghostLength == g.outPoint - g.inPoint && r.mediaLength == g.media.length
    ensures !trimming ==> r.ghostLength == g.ghostLength && r.mediaLength == g.mediaLength
  {
    var h := g.(oldIn := g.inPoint, oldOut := g.outPoint, oldTrack := g.track, oldClipIn := g.clipIn);
    if trimming then h.(ghostLength := h.oldOut - h.oldIn, mediaLength := g.media.length) else h
  }

  /** init_ghosts for the ghosts: each snapshot equals the ghost's current
      geometry, which is not changed. */
  function InitGhosts(gs: seq<Ghost>, trimming: bool): (r: seq<Ghost>)
    ensures |r| == |gs|
    ensures forall i :: 0 <= i < |r| ==>
      && r[i].clip == gs[i].clip && r[i].media == gs[i].media && r[i].stream == gs[i].stream
      && r[i].inPoint == gs[i].inPoint && r[i].outPoint == gs[i].outPoint
      && r[i].track == gs[i].track && r[i].clipIn == gs[i].clipIn
      && SnapshotOf(r[i]) == Snapshot(gs[i].clip, gs[i].inPoint, gs[i].outPoint, gs[i].track, gs[i].clipIn)
    ensures trimming ==> forall i :: 0 <= i < |r| ==>
      r[i].ghostLength == r[i].outPoint - r[i].inPoint && r[i].mediaLength == r[i].media.length
    ensures !trimming ==> forall i :: 0 <= i < |r| ==>
      r[i].ghostLength == gs[i].ghostLength && r[i].mediaLength == gs[i].mediaLength
  {
    seq(|gs|, i requires 0 <= i < |gs| => InitGhost(gs[i], trimming))
  }

  /** init_ghosts for the selections. */
  function InitSelections(ss: seq<Selection>): (r: seq<Selection>)
    ensures |r| == |ss|
    ensures forall i :: 0 <= i < |r| ==>
      && r[i].inPoint == ss[i].inPoint && r[i].outPoint == ss[i].outPoint && r[i].track == ss[i].track
      && r[i].oldIn == ss[i].inPoint && r[i].oldOut == ss[i].outPoint && r[i].oldTrack == ss[i].track
  {
    seq(|ss|, i requires 0 <= i < |ss| =>
      ss[i].(oldIn := ss[i].inPoint, oldOut := ss[i].outPoint, oldTrack := ss[i].track))
  }

  /** Taking the snapshot again changes nothing: a gesture restarted on the
      same ghosts sees the same snapshots. */
  lemma InitGhostsIdempotent(gs: seq<Ghost>, ss: seq<Selection>, trimming: bool)
    ensures InitGhosts(InitGhosts(gs, trimming), trimming) == InitGhosts(gs, trimming)
    ensures InitSelections(InitSelections(ss)) == InitSelections(ss)
  {
    var once := InitGhosts(gs, trimming);
    var twice := InitGhosts(once, trimming);
    assert forall i :: 0 <= i < |gs| ==> twice[i] == once[i];
  }

  /** The snapshot a fresh gesture takes depends only on the ghosts'
      current geometry and media: two ghost lists that agree on those get
      identical snapshots. */
  lemma SnapshotDependsOnGeometry(gs: seq<Ghost>, hs: seq<Ghost>, trimming: bool)
    requires |gs| == |hs|
    requires forall i :: 0 <= i < |gs| ==>
      gs[i].(oldIn := 0, oldOut := 0, oldTrack := 0, oldClipIn := 0, ghostLength := 0, mediaLength := 0)
      == hs[i].(oldIn := 0, oldOut := 0, oldTrack := 0, oldClipIn := 0, ghostLength := 0, mediaLength := 0)
    ensures trimming ==> InitGhosts(gs, trimming) == InitGhosts(hs, trimming)
    ensures forall i :: 0 <= i < |gs| ==> SnapshotOf(InitGhosts(gs, trimming)[i]) == SnapshotOf(InitGhosts(hs, trimming)[i])
  {
    var a, b := InitGhosts(gs, trimming), InitGhosts(hs, trimming);
    forall i | 0 <= i < |gs|
      ensures SnapshotOf(a[i]) == SnapshotOf(b[i])
      ensures trimming ==> a[i] == b[i]
    {
      var zg := gs[i].(oldIn := 0, oldOut := 0, oldTrack := 0, oldClipIn := 0, ghostLength := 0, mediaLength := 0);
      var zh := hs[i].(oldIn := 0, oldOut := 0, oldTrack := 0, oldClipIn := 0, ghostLength := 0, mediaLength := 0);
      assert zg.inPoint == gs[i].inPoint && zh.inPoint == hs[i].inPoint;
    }
  }

  // ---------------------------------------------------------------------
  // Ghosts of the selected clips (the set-up step of a move or trim)

  /** A fresh ghost of clip `c` held by handle `h`: its geometry copied, its
      snapshot not yet taken. */
  function GhostOf(c: Clip, h: nat): Ghost {
    Ghost(Some(h), c.media, c.stream, c.timelineIn, c.timelineOut, c.track, c.clipIn, 0, 0, 0, 0, 0, 0)
  }

  /** Whether ghost `g` copies the geometry of the clip its handle names. */
  predicate Mirrors(store: Store, g: Ghost) {
    && g.clip.Some? && Live(store, g.clip.value)
    && var c := store[g.clip.value].value;
    && g.inPoint == c.timelineIn && g.outPoint == c.timelineOut
    && g.track == c.track && g.clipIn == c.clipIn
    && g.media == c.media && g.stream == c.stream
  }

  /** One ghost per selected clip, in store order, from slot j on: each
      ghost mirrors a live selected clip, and handles strictly increase, so
      no clip gets two ghosts. */
  function SelectedGhosts(store: Store, selected: set<nat>, j: nat): (r: seq<Ghost>)
    ensures forall i :: 0 <= i < |r| ==> Mirrors(store, r[i]) && j <= r[i].clip.value && r[i].clip.value in selected
    ensures forall a, b :: 0 <= a < b < |r| ==> r[a].clip.Some? && r[b].clip.Some? && r[a].clip.value < r[b].clip.value
    decreases |store| - j
  {
    if j >= |store| then []
    else
      var rest := SelectedGhosts(store, selected, j + 1);
      if store[j].Some? && j in selected then
        var r := [GhostOf(store[j].value, j)] + rest;
        assert forall i :: 1 <= i < |r| ==> r[i] == rest[i - 1];
        r
      else rest
  }

  /** Every live selected clip from slot j on gets a ghost. */
  lemma {:induction false} SelectedGhostsComplete(store: Store, selected: set<nat>, j: nat, h: nat)
    requires j <= h && Live(store, h) && h in selected
    ensures exists i :: 0 <= i < |SelectedGhosts(store, selected, j)| && SelectedGhosts(store, selected, j)[i].clip == Some(h)
    decreases |store| - j
  {
    var r := SelectedGhosts(store, selected, j);
    if j < h {
      SelectedGhostsComplete(store, selected, j + 1, h);
      var rest := SelectedGhosts(store, selected, j + 1);
      var i :| 0 <= i < |rest| && rest[i].clip == Some(h);
      if store[j].Some? && j in selected {
        assert r[i + 1] == rest[i];
      }
    } else {
      assert r[0].clip == Some(h);
    }
  }

  // ---------------------------------------------------------------------
  // Ghosts of a drag-import

  /** A ghost for one stream of an item being imported. */
  function ImportGhost(m: Media, s: Stream, inPoint: int, outPoint: int, track: int): Ghost {
    Ghost(None, m, s, inPoint, outPoint, track, 0, 0, 0, 0, 0, 0, 0)
  }

  /** The audio loop of dragEnterEvent: audio stream j goes on track j. */
  function AudioGhosts(m: Media, start: int): (r: seq<Ghost>)
    ensures |r| == |m.audio|
    ensures forall j :: 0 <= j < |r| ==> r[j] == ImportGhost(m, m.audio[j], start, start + m.length, j)
  {
    seq(|m.audio|, j requires 0 <= j < |m.audio| => ImportGhost(m, m.audio[j], start, start + m.length, j))
  }

  /** The video loop of dragEnterEvent from stream j on, with `outPoint` the
      out-point carried over from the previous stream: an infinite-length
      stream of an item without audio shortens the shared out-point to a
      still's length, for itself and for the streams after it. */
  function VideoGhosts(m: Media, start: int, outPoint: int, j: nat): (r: seq<Ghost>)
    ensures |r| == if j <= |m.video| then |m.video| - j else 0
    decreases |m.video| - j
  {
    if j >= |m.video| then []
    else
      var out := if m.video[j].infiniteLength && |m.audio| == 0 then start + StillGhostLength else outPoint;
      [ImportGhost(m, m.video[j], start, out, -1 - j)] + VideoGhosts(m, start, out, j + 1)
  }

  /** Video ghosts are import ghosts starting at `start` with clip_in 0,
      the k-th on track -1 - (j + k). */
  lemma {:induction false} VideoGhostsShape(m: Media, start: int, outPoint: int, j: nat)
    ensures forall k :: 0 <= k < |VideoGhosts(m, start, outPoint, j)| ==>
      var g := VideoGhosts(m, start, outPoint, j)[k];
      g.clip == None && g.media == m && g.inPoint == start && g.clipIn == 0 && g.track == -1 - (j + k)
    decreases |m.video| - j
  {
    if j < |m.video| {
      var out := if m.video[j].infiniteLength && |m.audio| == 0 then start + StillGhostLength else outPoint;
      VideoGhostsShape(m, start, out, j + 1);
      var rest := VideoGhosts(m, start, out, j + 1);
      var r := VideoGhosts(m, start, outPoint, j);
      assert r == [ImportGhost(m, m.video[j], start, out, -1 - j)] + rest;
      assert forall k :: 1 <= k < |r| ==> r[k] == rest[k - 1];
    }
  }

  /** Reference definition of a video ghost's out-point: a still's length
      once some stream up to this one is infinite and the item has no
      audio, the item's length otherwise. */
  function VideoOut(m: Media, start: int, j: nat): int {
    if |m.audio| == 0 && exists k :: 0 <= k <= j && k < |m.video| && m.video[k].infiniteLength
    then start + StillGhostLength else start + m.length
  }

  lemma {:induction false} VideoGhostsLayout(m: Media, start: int, outPoint: int, j: nat)
    requires j <= |m.video|
    requires outPoint == if j == 0 then start + m.length else VideoOut(m, start, j - 1)
    ensures var r := VideoGhosts(m, start, outPoint, j);
      forall k :: j <= k < |m.video| ==>
        r[k - j] == ImportGhost(m, m.video[k], start, VideoOut(m, start, k), -1 - k)
    decreases |m.video| - j
  {
    if j < |m.video| {
      var out := if m.video[j].infiniteLength && |m.audio| == 0 then start + StillGhostLength else outPoint;
      assert out == VideoOut(m, start, j) by {
        if |m.audio| == 0 && !m.video[j].infiniteLength && j > 0 {
          assert (exists k :: 0 <= k <= j && k < |m.video| && m.video[k].infiniteLength)
            == (exists k :: 0 <= k <= j - 1 && k < |m.video| && m.video[k].infiniteLength);
        }
      }
      VideoGhostsLayout(m, start, out, j + 1);
      var rest := VideoGhosts(m, start, out, j + 1);
      var r := VideoGhosts(m, start, outPoint, j);
      assert r == [ImportGhost(m, m.video[j], start, out, -1 - j)] + rest;
      forall k | j < k < |m.video|
        ensures r[k - j] == ImportGhost(m, m.video[k], start, VideoOut(m, start, k), -1 - k)
      {
        assert r[k - j] == rest[k - (j + 1)];
      }
    }
  }

  /** The ghosts of one imported item starting at frame `start`. */
  function ItemGhosts(m: Media, start: int): (r: seq<Ghost>)
    ensures |r| == |m.audio| + |m.video|
    ensures forall k :: 0 <= k < |r| ==> r[k].clip == None && r[k].media == m && r[k].inPoint == start && r[k].clipIn == 0
    ensures forall k :: 0 <= k < |m.audio| ==> r[k].track == k && r[k].stream == m.audio[k]
    ensures forall k :: |m.audio| <= k < |r| ==> r[k].track == -1 - (k - |m.audio|)
  {
    VideoGhostsShape(m, start, start + m.length, 0);
    var a, v := AudioGhosts(m, start), VideoGhosts(m, start, start + m.length, 0);
    assert forall k :: |a| <= k < |a| + |v| ==> (a + v)[k] == v[k - |a|];
    assert forall k :: 0 <= k < |a| ==> (a + v)[k] == a[k];
    a + v
  }

  /** One item's ghosts: its audio streams on tracks 0..n-1 and its video
      streams on tracks -1..-n, all starting at `start` with clip_in 0; the
      audio ghosts and (when the item has audio or no infinite video
      stream) the video ghosts last the item's length. */
  lemma ItemLayout(m: Media, start: int)
    ensures var r := ItemGhosts(m, start);
      && |r| == |m.audio| + |m.video|
      && (forall k :: 0 <= k < |m.audio| ==>
            r[k] == ImportGhost(m, m.audio[k], start, start + m.length, k))
      && (forall k :: 0 <= k < |m.video| ==>
            r[|m.audio| + k] == ImportGhost(m, m.video[k], start, VideoOut(m, start, k), -1 - k))
  {
    var r := ItemGhosts(m, start);
    var a, v := AudioGhosts(m, start), VideoGhosts(m, start, start + m.length, 0);
    assert forall k :: 0 <= k < |m.audio| ==>
      r[k] == ImportGhost(m, m.audio[k], start, start + m.length, k) by {
      assert r == a + v;
      assert forall k :: 0 <= k < |a| ==> (a + v)[k] == a[k];
    }
    assert forall k :: 0 <= k < |m.video| ==>
      r[|m.audio| + k] == ImportGhost(m, m.video[k], start, VideoOut(m, start, k), -1 - k) by {
      VideoGhostsLayout(m, start, start + m.length, 0);
      assert r == a + v;
      forall k | 0 <= k < |m.video|
        ensures r[|m.audio| + k] == ImportGhost(m, m.video[k], start, VideoOut(m, start, k), -1 - k)
      {
        assert r[|m.audio| + k] == v[k];
      }
    }
  }

  /** dragEnterEvent's loop over the dragged items: each item's ghosts
      start where the previous item's length ends. */
  function ImportGhosts(items: seq<Media>, entry: int): (r: seq<Ghost>)
    ensures |r| == GhostCount(items)
    ensures forall k :: 0 <= k < |r| ==> r[k].clip == None && r[k].clipIn == 0 && r[k].media in items
    decreases |items|
  {
    if |items| == 0 then []
    else ItemGhosts(items[0], entry) + ImportGhosts(items[1..], entry + items[0].length)
  }

  /** Number of ghosts the first i items produce. */
  function GhostsBefore(items: seq<Media>, i: nat): nat
    requires i <= |items|
    decreases i
  {
    if i == 0 then 0 else |items[0].audio| + |items[0].video| + GhostsBefore(items[1..], i - 1)
  }

  /** Number of ghosts the items produce. */
  function GhostCount(items: seq<Media>): nat {
    GhostsBefore(items, |items|)
  }

  /** The frame where the ghosts of item i start: the entry frame plus the
      lengths of the items before it. */
  function StartOf(items: seq<Media>, entry: int, i: nat): int
    requires i <= |items|
    decreases i
  {
    if i == 0 then entry else StartOf(items[1..], entry + items[0].length, i - 1)
  }

  /** Past the first item's ghosts, the import continues with the ghosts
      of the remaining items, laid out from the end of the first. */
  lemma ImportGhostsAfterFirst(items: seq<Media>, entry: int, n: nat)
    requires |items| > 0 && n < |ImportGhosts(items[1..], entry + items[0].length)|
    ensures |items[0].audio| + |items[0].video| + n < |ImportGhosts(items, entry)|
    ensures ImportGhosts(items, entry)[|items[0].audio| + |items[0].video| + n]
      == ImportGhosts(items[1..], entry + items[0].length)[n]
  {
    var head := ItemGhosts(items[0], entry);
    var tail := ImportGhosts(items[1..], entry + items[0].length);
    assert ImportGhosts(items, entry) == head + tail;
    assert (head + tail)[|head| + n] == tail[n];
  }

  /** The import lays the items end to end from the entry frame: the ghosts
      of item i come after those of the items before it and start at the
      entry frame plus the lengths of those items. */
  lemma {:induction false} ImportLayout(items: seq<Media>, entry: int, i: nat, k: nat)
    requires i < |items| && k < |items[i].audio| + |items[i].video|
    ensures GhostsBefore(items, i) + k < |ImportGhosts(items, entry)|
    ensures ImportGhosts(items, entry)[GhostsBefore(items, i) + k]
      == ItemGhosts(items[i], StartOf(items, entry, i))[k]
    decreases i
  {
    if i == 0 {
      var head := ItemGhosts(items[0], entry);
      var tail := ImportGhosts(items[1..], entry + items[0].length);
      assert ImportGhosts(items, entry) == head + tail;
      assert (head + tail)[k] == head[k];
    } else {
      ImportLayout(items[1..], entry + items[0].length, i - 1, k);
      ImportGhostsAfterFirst(items, entry, GhostsBefore(items[1..], i - 1) + k);
      assert items[1..][i - 1] == items[i];
    }
  }

  /** The ghosts dragEnterEvent appends, with the drag origin it records:
      frame `entry + startOffset` (the pointer plus a fixed screen offset)
      and track -1 or 0 depending on which half of the timeline this
      widget shows. Media dragged from anywhere else is ignored. */
  function DragEnter(e: Editor, fromSourceTable: bool, entry: int, startOffset: int, items: seq<Media>, bottomAlign: bool): (r: Editor)
    ensures !fromSourceTable ==> r == e
    ensures fromSourceTable ==>
      && r.importing && r.store == e.store
      && r.ghosts == InitGhosts(e.ghosts + ImportGhosts(items, entry), e.trimTarget > -1)
      && r.selections == InitSelections(e.selections)
      && r.dragFrameStart == entry + startOffset
      && r.dragTrackStart == (if bottomAlign then -1 else 0)
  {
    if !fromSourceTable then e
    else
      e.(dragFrameStart := entry + startOffset,
         dragTrackStart := if bottomAlign then -1 else 0,
         ghosts := InitGhosts(e.ghosts + ImportGhosts(items, entry), e.trimTarget > -1),
         selections := InitSelections(e.selections),
         importing := true)
  }

  /** dragLeaveEvent: an import leaving the widget drops its ghosts and
      touches nothing else. */
  function DragLeave(e: Editor): (r: Editor)
    ensures e.importing ==> r.ghosts == [] && !r.importing
    ensures r.store == e.store && r.selections == e.selections
    ensures !e.importing ==> r == e
  {
    if e.importing then e.(ghosts := [], importing := false) else e
  }
}
