/**
 * The notification store of `EnhancedNotificationProvider`: a list of
 * notifications, newest first, capped at `maxNotifications`, and a counter
 * that hands out ids. `addNotification`, `removeNotification`,
 * `updateNotification` and `clearAll` replace the list; the `show*`
 * helpers build the object handed to `addNotification`.
 *
 * A JavaScript object literal is modelled by `Fields`: one `Option` per key,
 * `None` for a key the object does not carry. The spread `{...a, ...b}`
 * lets every key `b` carries win over `a`.
 */
module Notifications {
  import opened Wrappers
  import opened Seqs
  import Text

  datatype Kind = Success | Error | Warning | Info | Loading

  /** The keys a caller may put in a notification object or in an update. */
  datatype Fields = Fields(
    id: Option<int>,
    kind: Option<Kind>,
    message: Option<string>,
    title: Option<string>,
    duration: Option<int>,
    persistent: Option<bool>,
    timestamp: Option<int>)

  const NoFields := Fields(None, None, None, None, None, None, None)

  /** A stored notification: the id, the duration and the timestamp are always set. */
  datatype Notification = Notification(
    id: int,
    kind: Option<Kind>,
    message: Option<string>,
    title: Option<string>,
    duration: int,
    persistent: Option<bool>,
    timestamp: int)

  /**
   * The object `addNotification` stores: `{id, duration: globalDuration,
   * ...fields, timestamp}` (EnhancedNotificationSystem.js lines 357-362).
   * The clock reading `now` stands for `Date.now()`.
   */
  function Created(fields: Fields, id: int, globalDuration: int, now: int): Notification {
    Notification(fields.id.GetOr(id), fields.kind, fields.message, fields.title,
      fields.duration.GetOr(globalDuration), fields.persistent, now)
  }

  /** `{...n, ...updates}`: each key the update carries replaces the stored one. */
  function Merge(n: Notification, updates: Fields): Notification {
    Notification(updates.id.GetOr(n.id), if updates.kind.Some? then updates.kind else n.kind,
      if updates.message.Some? then updates.message else n.message,
      if updates.title.Some? then updates.title else n.title,
      updates.duration.GetOr(n.duration),
      if updates.persistent.Some? then updates.persistent else n.persistent,
      updates.timestamp.GetOr(n.timestamp))
  }

  /** `[n, ...list].slice(0, max)`: the new notification in front, the oldest ones cut off. */
  function Pushed(list: seq<Notification>, n: Notification, max: int): (r: seq<Notification>)
    ensures 0 <= max ==> |r| == if max <= |list| + 1 then max else |list| + 1
    ensures 0 < max ==> r[0] == n && r[1..] == list[..|r| - 1]
  {
    var r := Text.Slice([n] + list, 0, max);
    if 0 <= max then
      Text.SliceFromZero([n] + list, max);
      assert 0 < max ==> r[1..] == ([n] + list)[1..|r|];
      r
    else r
  }

  /** `list.filter(x => x.id !== id)`. */
  function Without(list: seq<Notification>, id: int): (r: seq<Notification>)
    ensures forall x :: x in r <==> x in list && x.id != id
    ensures Subsequence(r, list)
  {
    Filter(list, (x: Notification) => x.id != id)
  }

  /** `list.map(x => x.id === id ? {...x, ...updates} : x)`. */
  function Updated(list: seq<Notification>, id: int, updates: Fields): (r: seq<Notification>)
    ensures |r| == |list|
    ensures forall i :: 0 <= i < |list| && list[i].id != id ==> r[i] == list[i]
    ensures forall i :: 0 <= i < |list| && list[i].id == id ==> r[i] == Merge(list[i], updates)
  {
    seq(|list|, i requires 0 <= i < |list| => if list[i].id == id then Merge(list[i], updates) else list[i])
  }

  /** `x` was added after `y`. */
  predicate Newer(x: Notification, y: Notification) {
    x.id > y.id
  }

  /** Ids strictly decrease along the list: the newest notification comes first. */
  predicate NewestFirst(list: seq<Notification>) {
    Pairwise(list, Newer)
  }

  /** Every id is one the counter has handed out. */
  predicate IdsIssued(list: seq<Notification>, lastId: int) {
    forall i :: 0 <= i < |list| ==> 1 <= list[i].id <= lastId
  }

  // ---------------------------------------------------------------------
  // The `show*` helpers (lines 392-437)

  function DefaultTitle(kind: Kind): string {
    match kind
    case Success => "Success"
    case Error => "Error"
    case Warning => "Warning"
    case Info => "Info"
    case Loading => "Loading"
  }

  /**
   * The object `show<Kind>(message, options)` hands to `addNotification`:
   * the kind and the message, the title `options.title || <default>`, for
   * errors the duration `options.duration || 7000`, for loading
   * `persistent: true`, and then `...options` over all of these.
   */
  function ShowFields(kind: Kind, message: string, options: Fields): Fields {
    Fields(
      options.id,
      Some(options.kind.GetOr(kind)),
      Some(options.message.GetOr(message)),
      Some(options.title.GetOr(DefaultTitle(kind))),
      if kind == Error then Some(options.duration.GetOr(7000)) else options.duration,
      if kind == Loading then Some(options.persistent.GetOr(true)) else options.persistent,
      options.timestamp)
  }

  /** The card's timer dismisses a notification that is not persistent and has a positive duration (lines 64-70). */
  predicate AutoDismisses(n: Notification) {
    !(n.persistent.Some? && n.persistent.value) && n.duration > 0
  }

  /** The defaults of the `show*` helpers, when no option overrides them. */
  lemma ShowDefaults(kind: Kind, message: string, id: int, globalDuration: int, now: int)
    ensures var n := Created(ShowFields(kind, message, NoFields), id, globalDuration, now);
      && n.id == id && n.kind == Some(kind) && n.message == Some(message)
      && n.title == Some(DefaultTitle(kind))
      && n.duration == (if kind == Error then 7000 else globalDuration)
      && n.persistent == (if kind == Loading then Some(true) else None)
      && n.timestamp == now
    ensures kind == Loading ==> !AutoDismisses(Created(ShowFields(kind, message, NoFields), id, globalDuration, now))
    ensures kind == Error ==> AutoDismisses(Created(ShowFields(kind, message, NoFields), id, globalDuration, now))
  {
  }

  /** Every option the caller passes wins over the helper's default; the timestamp never does. */
  lemma ShowOverrides(kind: Kind, message: string, options: Fields, id: int, globalDuration: int, now: int)
    ensures var n := Created(ShowFields(kind, message, options), id, globalDuration, now);
      && (options.title.Some? ==> n.title == options.title)
      && (options.duration.Some? ==> n.duration == options.duration.value)
      && (options.persistent.Some? ==> n.persistent == options.persistent)
      && (options.kind.Some? ==> n.kind == options.kind)
      && n.timestamp == now
  {
  }

  // ---------------------------------------------------------------------
  // What the store's operations keep

  /** Pushing a notification with the next id keeps the list newest first and its ids issued. */
  lemma PushedKeeps(list: seq<Notification>, n: Notification, max: int, lastId: int)
    requires NewestFirst(list) && IdsIssued(list, lastId) && n.id == lastId + 1 && 1 <= n.id
    ensures NewestFirst(Pushed(list, n, max)) && IdsIssued(Pushed(list, n, max), lastId + 1)
  {
    var r := Pushed(list, n, max);
    if 0 < max {
      forall i, j | 0 <= i < j < |r|
        ensures Newer(r[i], r[j])
      {
        assert r[j] == list[j - 1];
        if i > 0 {
          assert r[i] == list[i - 1];
        }
      }
      forall i | 0 <= i < |r|
        ensures 1 <= r[i].id <= lastId + 1
      {
        if i > 0 {
          assert r[i] == list[i - 1];
        }
      }
    } else {
      var s := [n] + list;
      var a, b := Text.SliceIndex(0, |s|), Text.SliceIndex(max, |s|);
      if a < b {
        forall i, j | 0 <= i < j < |r|
          ensures Newer(r[i], r[j])
        {
          assert r[i] == s[i] && r[j] == s[j];
          assert s[j] == list[j - 1];
          if i > 0 {
            assert s[i] == list[i - 1];
          }
        }
        forall i | 0 <= i < |r|
          ensures 1 <= r[i].id <= lastId + 1
        {
          assert r[i] == s[i];
          if i > 0 {
            assert s[i] == list[i - 1];
          }
        }
      }
    }
  }

  /** Removing keeps the list newest first and its ids issued. */
  lemma WithoutKeeps(list: seq<Notification>, id: int, lastId: int)
    requires NewestFirst(list) && IdsIssued(list, lastId)
    ensures NewestFirst(Without(list, id)) && IdsIssued(Without(list, id), lastId)
  {
    var r := Without(list, id);
    SubsequencePairwise(r, list, Newer);
    forall i | 0 <= i < |r|
      ensures 1 <= r[i].id <= lastId
    {
      assert r[i] in list;
    }
  }

  /** An update that does not set `id` leaves every id where it was. */
  lemma UpdatedKeeps(list: seq<Notification>, id: int, updates: Fields, lastId: int)
    requires updates.id.None? && NewestFirst(list) && IdsIssued(list, lastId)
    ensures NewestFirst(Updated(list, id, updates)) && IdsIssued(Updated(list, id, updates), lastId)
  {
    var r := Updated(list, id, updates);
    assert forall i :: 0 <= i < |list| ==> r[i].id == list[i].id;
  }

  /**
   * Removing the notification just added gives the list back, as long as
   * the cap did not cut anything off: `add` and `remove` are inverse.
   */
  lemma {:induction false} RemoveUndoesAdd(list: seq<Notification>, n: Notification, max: int, lastId: int)
    requires IdsIssued(list, lastId) && n.id == lastId + 1 && |list| < max
    ensures Without(Pushed(list, n, max), n.id) == list
  {
    var r := Pushed(list, n, max);
    assert r == [n] + list;
    assert forall i :: 0 <= i < |list| ==> list[i].id != n.id;
    FilterAll(list, (x: Notification) => x.id != n.id);
    assert ([n] + list)[1..] == list;
  }

  /** No notification keeps the removed id. */
  lemma WithoutRemovesAll(list: seq<Notification>, id: int)
    ensures forall i :: 0 <= i < |Without(list, id)| ==> Without(list, id)[i].id != id
    ensures |Without(list, id)| <= |list|
  {
    var r := Without(list, id);
    forall i | 0 <= i < |r|
      ensures r[i].id != id
    {
      assert r[i] in r;
    }
    SubsequenceLength(r, list);
  }

  // ---------------------------------------------------------------------
  // The store

  class NotificationCenter {
    /** `maxNotifications` and `globalDuration`, the provider's props. */
    const maxNotifications: int
    const globalDuration: int
    var notifications: seq<Notification>
    /** `notificationId.current`: the last id handed out. */
    var lastId: int

    /** What every operation except an id-changing one keeps. */
    predicate Valid()
      reads this
    {
      0 <= lastId && NewestFirst(notifications) && IdsIssued(notifications, lastId)
    }

    constructor(maxNotifications: int, globalDuration: int)
      ensures this.maxNotifications == maxNotifications && this.globalDuration == globalDuration
      ensures notifications == [] && lastId == 0
      ensures Valid()
    {
      this.maxNotifications := maxNotifications;
      this.globalDuration := globalDuration;
      notifications := [];
      lastId := 0;
    }

    /** `addNotification(fields)`: the next id, the new notification in front, the list capped. */
    method Add(fields: Fields, now: int) returns (id: int)
      modifies this
      ensures id == old(lastId) + 1 && lastId == id
      ensures notifications == Pushed(old(notifications), Created(fields, id, globalDuration, now), maxNotifications)
      ensures old(Valid()) && fields.id.None? ==> Valid()
    {
      lastId := lastId + 1;
      id := lastId;
      if old(Valid()) && fields.id.None? {
        PushedKeeps(notifications, Created(fields, id, globalDuration, now), maxNotifications, id - 1);
      }
      notifications := Pushed(notifications, Created(fields, id, globalDuration, now), maxNotifications);
    }

    /** `show<Kind>(message, options)`. */
    method Show(kind: Kind, message: string, options: Fields, now: int) returns (id: int)
      modifies this
      ensures id == old(lastId) + 1 && lastId == id
      ensures notifications == Pushed(old(notifications), Created(ShowFields(kind, message, options), id, globalDuration, now), maxNotifications)
      ensures old(Valid()) && options.id.None? ==> Valid()
    {
      id := Add(ShowFields(kind, message, options), now);
    }

    /** `removeNotification(id)`. */
    method Remove(id: int)
      modifies this
      ensures notifications == Without(old(notifications), id) && lastId == old(lastId)
      ensures old(Valid()) ==> Valid()
    {
      if Valid() {
        WithoutKeeps(notifications, id, lastId);
      }
      notifications := Without(notifications, id);
    }

    /** `clearAll()`: the counter is not reset. */
    method ClearAll()
      modifies this
      ensures notifications == [] && lastId == old(lastId)
      ensures old(Valid()) ==> Valid()
    {
      notifications := [];
    }

    /** `updateNotification(id, updates)`. */
    method Update(id: int, updates: Fields)
      modifies this
      ensures notifications == Updated(old(notifications), id, updates) && lastId == old(lastId)
      ensures old(Valid()) && updates.id.None? ==> Valid()
    {
      if Valid() && updates.id.None? {
        UpdatedKeeps(notifications, id, updates, lastId);
      }
      notifications := Updated(notifications, id, updates);
    }
  }
}
