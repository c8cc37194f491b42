/** The clip-store operations the gesture commit calls: the sequence's
    `delete_area` and the timeline panel's `ripple`. Neither body is part
    of this model; each is given here the simplest behaviour consistent
    with how the timeline widget uses it, and the contracts below are all
    the rest of the model relies on. */
module ClipStore {
  import opened Timeline

  /** Clears frames [inPoint, outPoint) of `track`: every clip there that is
      not locked `undeletable` is removed. Locked clips and clips elsewhere
      are kept exactly. */
  function DeleteArea(store: Store, inPoint: int, outPoint: int, track: int): (r: Store)
    ensures |r| == |store|
    ensures forall h :: 0 <= h < |r| ==> r[h] == store[h] || r[h] == None
    ensures forall h :: 0 <= h < |r| && store[h].Some? && store[h].value.undeletable ==> r[h] == store[h]
    ensures forall h :: 0 <= h < |r| && store[h].Some? && !Overlaps(store[h].value, inPoint, outPoint, track) ==> r[h] == store[h]
    ensures forall h :: 0 <= h < |r| && r[h].Some? ==> r[h].value.undeletable || !Overlaps(r[h].value, inPoint, outPoint, track)
  {
    seq(|store|, h requires 0 <= h < |store| =>
      if store[h].Some? && !store[h].value.undeletable && Overlaps(store[h].value, inPoint, outPoint, track)
      then None else store[h])
  }

  /** Moves `c` to the given geometry, keeping everything else about it. */
  function Place(c: Clip, inPoint: int, outPoint: int, track: int): (r: Clip)
    ensures r.timelineIn == inPoint && r.timelineOut == outPoint && r.track == track
    ensures r.media == c.media && r.stream == c.stream && r.clipIn == c.clipIn
    ensures r.name == c.name && r.color == c.color && r.undeletable == c.undeletable
  {
    c.(timelineIn := inPoint, timelineOut := outPoint, track := track)
  }

  /** Ripples the timeline: every clip starting at or after `point` moves by
      `shift` frames on its own track; clips starting before `point` stay. */
  function RippleShift(store: Store, point: int, shift: int): (r: Store)
    ensures |r| == |store|
    ensures forall h :: 0 <= h < |r| ==> (r[h].Some? <==> store[h].Some?)
    ensures forall h :: 0 <= h < |r| && store[h].Some? && store[h].value.timelineIn < point ==> r[h] == store[h]
    ensures forall h :: 0 <= h < |r| && store[h].Some? && store[h].value.timelineIn >= point ==>
      var c, d := store[h].value, r[h].value;
      && d == Place(c, c.timelineIn + shift, c.timelineOut + shift, c.track)
      && d.timelineOut - d.timelineIn == c.timelineOut - c.timelineIn
  {
    seq(|store|, h requires 0 <= h < |store| =>
      if store[h].Some? && store[h].value.timelineIn >= point
      then
        var c := store[h].value;
        Some(Place(c, c.timelineIn + shift, c.timelineOut + shift, c.track))
      else store[h])
  }
}
