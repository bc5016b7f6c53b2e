/** The lifecycle fields shared by every tracked document (users, role
    assignments, stored files) and the `update` operation that stamps them. */
module Tracked {
  import opened Prelude

  datatype Tracking = Tracking(
    addedby: UserId,
    addeddate: Time,
    iscurrent: bool,
    removedby: Option<UserId>,
    removeddate: Option<Time>,
    modifieddate: Time)

  /** The lifecycle keyword arguments of one `update` call; `None` means the
      argument is not passed. `modifieddate` is not among them: `update`
      already passes it, so a caller passing it too would fail. Arguments for
      a document's own fields are not modelled here. */
  datatype Changes = Changes(
    addedby: Option<UserId>,
    addeddate: Option<Time>,
    iscurrent: Option<bool>,
    removedby: Option<UserId>,
    removeddate: Option<Time>)

  const NoChanges := Changes(None, None, None, None, None)

  /** A fresh record: current, not removed, added and modified at `now`. */
  function Created(actor: UserId, addeddate: Time, now: Time): (t: Tracking)
    ensures t.iscurrent && t.removedby.None? && t.removeddate.None?
    ensures t.addedby == actor && t.addeddate == addeddate && t.modifieddate == now
  {
    Tracking(actor, addeddate, true, None, None, now)
  }

  /** `TrackedAssignment.update`: applies the passed fields and always stamps
      `modifieddate` with the clock reading. */
  function Update(t: Tracking, c: Changes, now: Time): (r: Tracking)
    ensures r.modifieddate == now
    ensures c.addedby.None? ==> r.addedby == t.addedby
    ensures c.addeddate.None? ==> r.addeddate == t.addeddate
    ensures c.iscurrent.None? ==> r.iscurrent == t.iscurrent
    ensures c.removedby.None? ==> r.removedby == t.removedby
    ensures c.removeddate.None? ==> r.removeddate == t.removeddate
    ensures c.addedby.Some? ==> r.addedby == c.addedby.value
    ensures c.addeddate.Some? ==> r.addeddate == c.addeddate.value
    ensures c.iscurrent.Some? ==> r.iscurrent == c.iscurrent.value
    ensures c.removedby.Some? ==> r.removedby == c.removedby
    ensures c.removeddate.Some? ==> r.removeddate == c.removeddate
  {
    Tracking(
      c.addedby.GetOr(t.addedby),
      c.addeddate.GetOr(t.addeddate),
      c.iscurrent.GetOr(t.iscurrent),
      if c.removedby.Some? then c.removedby else t.removedby,
      if c.removeddate.Some? then c.removeddate else t.removeddate,
      now)
  }

  /** Later keyword arguments win when two updates are merged. */
  function Merge(first: Changes, second: Changes): Changes {
    Changes(
      if second.addedby.Some? then second.addedby else first.addedby,
      if second.addeddate.Some? then second.addeddate else first.addeddate,
      if second.iscurrent.Some? then second.iscurrent else first.iscurrent,
      if second.removedby.Some? then second.removedby else first.removedby,
      if second.removeddate.Some? then second.removeddate else first.removeddate)
  }

  /** Two updates in a row equal one update with the merged fields at the later
      time: the earlier timestamp never survives. */
  lemma UpdateTwice(t: Tracking, c1: Changes, now1: Time, c2: Changes, now2: Time)
    ensures Update(Update(t, c1, now1), c2, now2) == Update(t, Merge(c1, c2), now2)
  {
  }
}
