/**
 * The notification list of `NotificationProvider`: `addNotification`
 * appends an entry stamped with the current millisecond and may schedule
 * its removal, `removeNotification` drops every entry with a given id.  The
 * clock is a parameter and a scheduled removal is recorded as a pending
 * timer instead of running.
 */
module NotificationContext {
  import opened JsValues
  import opened Seqs

  datatype Notification = Notification(id: int, message: string, kind: string)

  /** A `setTimeout` that will remove `id` after `delay` milliseconds. */
  datatype Timer = Timer(id: int, delay: int)

  datatype Center = Center(notifications: seq<Notification>, pending: seq<Timer>)

  const DefaultKind: string := "info"
  const DefaultDuration: int := 4000

  function HasOtherId(id: int): Notification -> bool {
    (n: Notification) => n.id != id
  }

  /** `removeNotification(id)`. */
  function Remove(c: Center, id: int): (r: Center)
    ensures r.pending == c.pending
    ensures IsSubsequence(r.notifications, c.notifications)
    ensures forall n :: n in r.notifications <==> n in c.notifications && n.id != id
  {
    c.(notifications := Filter(c.notifications, HasOtherId(id)))
  }

  /** `addNotification(message, type, duration)` at time `now`; an omitted
      `type` or `duration` is `None`.  Returns the new state and the id. */
  function Add(c: Center, now: int, message: string, kind: Option<string>, duration: Option<int>): (r: (Center, int))
    ensures r.1 == now
    ensures r.0.notifications == c.notifications + [Notification(now, message, kind.GetOr(DefaultKind))]
    // a removal is scheduled exactly when the duration is not zero
    ensures duration.GetOr(DefaultDuration) != 0 ==> r.0.pending == c.pending + [Timer(now, duration.GetOr(DefaultDuration))]
    ensures duration.GetOr(DefaultDuration) == 0 ==> r.0.pending == c.pending
  {
    var id := now;
    var d := duration.GetOr(DefaultDuration);
    var notes := c.notifications + [Notification(id, message, kind.GetOr(DefaultKind))];
    (Center(notes, if d != 0 then c.pending + [Timer(id, d)] else c.pending), id)
  }

  /** A pending timer fires: its entry (and any other with the same id) goes. */
  function Fire(c: Center, k: nat): (r: Center)
    requires k < |c.pending|
    ensures r.pending == c.pending[..k] + c.pending[k + 1..]
    ensures r.notifications == Remove(c, c.pending[k].id).notifications
  {
    Center(Remove(c, c.pending[k].id).notifications, c.pending[..k] + c.pending[k + 1..])
  }

  /** The defaults: type "info", a 4000 ms timer. */
  lemma AddDefaults(c: Center, now: int, message: string)
    ensures var (r, id) := Add(c, now, message, None, None);
      && r.notifications[|r.notifications| - 1] == Notification(now, message, "info")
      && r.pending[|r.pending| - 1] == Timer(now, 4000)
      && id == now
  {
  }

  /** Earlier entries stay where they were and the list grows by one. */
  lemma AddAppends(c: Center, now: int, message: string, kind: Option<string>, duration: Option<int>)
    ensures var r := Add(c, now, message, kind, duration).0;
      && |r.notifications| == |c.notifications| + 1
      && r.notifications[..|c.notifications|] == c.notifications
  {
  }

  /** Removing an id nobody has changes nothing. */
  lemma RemoveAbsent(c: Center, id: int)
    requires forall n :: n in c.notifications ==> n.id != id
    ensures Remove(c, id) == c
  {
    FilterKeepsAll(c.notifications, HasOtherId(id));
  }

  /** Removing twice is removing once. */
  lemma RemoveTwice(c: Center, id: int)
    ensures Remove(Remove(c, id), id) == Remove(c, id)
  {
    FilterIdempotent(c.notifications, HasOtherId(id));
  }

  /** Adding an entry under an id not yet in use and removing that id gives
      back the list as it was. */
  lemma AddThenRemove(c: Center, now: int, message: string, kind: Option<string>, duration: Option<int>)
    requires forall n :: n in c.notifications ==> n.id != now
    ensures Remove(Add(c, now, message, kind, duration).0, now).notifications == c.notifications
  {
    var added := Add(c, now, message, kind, duration).0.notifications;
    FilterAppend(c.notifications, [Notification(now, message, kind.GetOr(DefaultKind))], HasOtherId(now));
    FilterKeepsAll(c.notifications, HasOtherId(now));
  }

  /** Two entries added in the same millisecond share their id, so the first
      timer to fire removes both. */
  lemma SameMillisecondRemovedTogether(c: Center, now: int, m1: string, m2: string)
    ensures var c2 := Add(Add(c, now, m1, None, None).0, now, m2, None, None).0;
      && |c2.pending| == |c.pending| + 2
      && c2.pending[|c.pending|].id == now
      && var after := Fire(c2, |c.pending|).notifications;
         Notification(now, m1, "info") !in after && Notification(now, m2, "info") !in after
  {
  }
}
