/** Data model of the timeline edit engine: clips in a clip store, the ghosts
    that stand in for clips while a gesture is in flight, range selections,
    and the editor state the gesture handlers read and write.

    Frames are `long` and tracks `int` in the program; here both are
    unbounded integers. Negative tracks hold video, non-negative tracks
    hold audio. */
module Timeline {

  datatype Option<+T> = None | Some(value: T)

  /** Track polarity: whether two tracks hold the same kind of clip. */
  function SameSign(a: int, b: int): (r: bool)
    ensures r <==> (a < 0 && b < 0) || (0 <= a && 0 <= b)
  {
    (a < 0) == (b < 0)
  }

  /** Half-width of the snapping window: an edge at distance d from a
      candidate snaps to it when -SnapRange < d < SnapRange. */
  const SnapRange: int := 15

  /** Length given on import to the video ghosts of an item that has an
      infinite-length video stream (a still image) and no audio stream. */
  const StillGhostLength: int := 100

  /** A media stream; an infinite-length stream has no duration ceiling. */
  datatype Stream = Stream(id: nat, infiniteLength: bool)

  /** An imported media item. `length` is its duration in frames at the
      sequence's frame rate. */
  datatype Media = Media(name: string, length: int, audio: seq<Stream>, video: seq<Stream>)

  datatype Color = Color(r: int, g: int, b: int)

  /** Colour the drop handler gives every imported clip. */
  const ImportColor: Color := Color(128, 128, 192)

  /** A clip occupies the half-open frame interval [timelineIn, timelineOut)
      of its track and plays its stream from offset clipIn. */
  datatype Clip = Clip(
    media: Media, stream: Stream, name: string, color: Color,
    track: int, timelineIn: int, timelineOut: int, clipIn: int,
    undeletable: bool)

  /** The clip store. A clip's handle is its index; deleting a clip leaves
      an empty slot, so a handle held by a ghost never shifts to another
      clip in the middle of a commit. */
  type Store = seq<Option<Clip>>

  predicate Live(store: Store, h: nat) {
    h < |store| && store[h].Some?
  }

  /** Whether clip `c` intersects frames [inPoint, outPoint) of `track`. */
  predicate Overlaps(c: Clip, inPoint: int, outPoint: int, track: int) {
    c.track == track && c.timelineIn < outPoint && inPoint < c.timelineOut
  }

  /** A ghost: the proposed geometry (inPoint, outPoint, track, clipIn) of
      one clip under edit, the snapshot of that geometry taken when the
      gesture began (old*), and for trims the cached clip length and media
      length. `clip` is None for a ghost of a clip still to be imported. */
  datatype Ghost = Ghost(
    clip: Option<nat>, media: Media, stream: Stream,
    inPoint: int, outPoint: int, track: int, clipIn: int,
    oldIn: int, oldOut: int, oldTrack: int, oldClipIn: int,
    ghostLength: int, mediaLength: int)

  /** Whether clip `h` is under edit (some ghost holds it). */
  predicate IsGhostClip(ghosts: seq<Ghost>, h: nat) {
    exists k :: 0 <= k < |ghosts| && ghosts[k].clip == Some(h)
  }

  /** Every ghost holds a live clip, as the ghosts of a move or trim do. */
  predicate GhostsLive(store: Store, ghosts: seq<Ghost>) {
    forall k :: 0 <= k < |ghosts| ==> ghosts[k].clip.Some? && Live(store, ghosts[k].clip.value)
  }

  /** No two ghosts hold the same clip. */
  predicate DistinctClips(ghosts: seq<Ghost>) {
    forall a, b :: 0 <= a < b < |ghosts| && ghosts[a].clip.Some? && ghosts[b].clip.Some? ==>
      ghosts[a].clip.value != ghosts[b].clip.value
  }

  /** The pre-gesture snapshot of a ghost. */
  datatype Snapshot = Snapshot(clip: Option<nat>, oldIn: int, oldOut: int, oldTrack: int, oldClipIn: int)

  function SnapshotOf(g: Ghost): Snapshot {
    Snapshot(g.clip, g.oldIn, g.oldOut, g.oldTrack, g.oldClipIn)
  }

  /** A selected range: frames [inPoint, outPoint) of one track, with the
      same kind of snapshot a ghost carries. */
  datatype Selection = Selection(inPoint: int, outPoint: int, track: int, oldIn: int, oldOut: int, oldTrack: int)

  /** Edit tools. `Edit` is the range-select tool. */
  datatype Tool = Pointer | Ripple | Edit | Razor

  /** The editor state shared by the gesture handlers. `trimTarget` is -1
      when the pointer is over no clip edge; `preClips` and `postClips` are
      handles of the clips cached for a ripple gesture. */
  datatype Editor = Editor(
    store: Store,
    ghosts: seq<Ghost>, selections: seq<Selection>,
    preClips: seq<nat>, postClips: seq<nat>,
    tool: Tool, snapping: bool, playhead: int,
    snapped: bool, snapPoint: int,
    trimTarget: int, trimIn: bool,
    dragFrameStart: int, dragTrackStart: int,
    importing: bool, selecting: bool, movingInit: bool, movingProc: bool, splitting: bool)

  /** The gesture state every exit path must leave behind. */
  predicate Idle(e: Editor) {
    && e.ghosts == []
    && e.preClips == [] && e.postClips == []
    && !e.selecting && !e.movingInit && !e.movingProc && !e.splitting && !e.snapped
  }
}
