/**
 * The notification handlers. Every failure is handed to the error handler
 * as an error carrying a status, which answers with that status and
 * `{error: message}`; the replies here are already in that form.
 */
module Notifications {
  import opened Text
  import opened Seqs
  import opened Store

  const Unauthorized := "Unauthorized: User not authenticated"

  function ForReceiver(user: int): Notification -> bool {
    (n: Notification) => n.receiverId == user
  }

  function NotificationWithId(id: int): Notification -> bool {
    (n: Notification) => n.id == id
  }

  /** The `findFirst({where: {id, receiverId}})` condition. */
  function Addressed(id: int, user: int): Notification -> bool {
    (n: Notification) => n.id == id && n.receiverId == user
  }

  /** The `orderBy: {createdAt: "desc"}` key. */
  function Newest(): Notification -> int {
    (n: Notification) => -n.createdAt
  }

  predicate UniqueNotificationIds(ns: seq<Notification>) {
    forall i, j :: 0 <= i < j < |ns| ==> ns[i].id != ns[j].id
  }

  /** `getNotifications`: the requester's notifications, newest first. */
  function GetNotifications(db: Db, req: Requester): (resp: Response<seq<Notification>>)
    ensures resp.status == 401 <==> !SignedIn(req)
    ensures resp.status == 401 ==> resp.body == Note("error", Unauthorized)
    ensures resp.status != 401 ==>
              && resp.status == 200 && resp.body.Payload?
              && var ns := resp.body.value;
              && (forall n :: multiset(ns)[n] == if n.receiverId == req.userId.value then multiset(db.notifications)[n] else 0)
              && (forall i, j :: 0 <= i < j < |ns| ==> ns[i].createdAt >= ns[j].createdAt)
  {
    if !SignedIn(req) then Fail(401, "error", Unauthorized)
    else
      var ns := SortBy(Where(db.notifications, ForReceiver(req.userId.value)), Newest());
      SortedWhere(db.notifications, ForReceiver(req.userId.value), Newest());
      Response(200, Payload(ns))
  }

  /** The listing holds every notification of the requester and nobody else's. */
  lemma ListingIsTheRequesters(db: Db, req: Requester)
    requires SignedIn(req)
    ensures var ns := GetNotifications(db, req).body.value;
            forall n :: n in ns <==> n in db.notifications && n.receiverId == req.userId.value
  {
    var ns := GetNotifications(db, req).body.value;
    forall n
      ensures n in ns <==> n in db.notifications && n.receiverId == req.userId.value
    {
      assert n in ns <==> multiset(ns)[n] > 0;
      assert n in db.notifications <==> multiset(db.notifications)[n] > 0;
    }
  }

  /**
   * `deleteNotification`: 401, then 400 for a NaN id, then 404 when the
   * requester has no notification with that id. The ownership test after
   * the lookup is kept as written; `NeverForbidden` shows it cannot fire.
   */
  function DeleteNotification(db: Db, req: Requester, pathId: Option<int>): (out: (Response<()>, Db))
    ensures var (resp, db') := out;
            && (resp.status == 401 <==> !SignedIn(req))
            && (resp.status == 400 <==> SignedIn(req) && pathId.None?)
            && (resp.status == 404 <==>
                  && SignedIn(req) && pathId.Some?
                  && forall k :: 0 <= k < |db.notifications| ==> !Addressed(pathId.value, req.userId.value)(db.notifications[k]))
            && (resp.status != 200 ==> db' == db && resp.body.Note? && resp.body.key == "error")
            && (resp.status == 200 ==>
                  && resp.body == Note("message", "Notification deleted successfully")
                  && db' == db.(notifications := db'.notifications)
                  && IsSubseq(db'.notifications, db.notifications)
                  && forall n :: n in db'.notifications <==> n in db.notifications && n.id != pathId.value)
  {
    if !SignedIn(req) then (Fail(401, "error", Unauthorized), db)
    else if pathId.None? then (Fail(400, "error", "Invalid notification id"), db)
    else
      var id, u := pathId.value, req.userId.value;
      match FirstIndex(db.notifications, Addressed(id, u))
      case None => (Fail(404, "error", "Notification not found"), db)
      case Some(k) =>
        if db.notifications[k].receiverId != u then
          (Fail(403, "error", "Forbidden: You cannot delete this notification"), db)
        else
          WithoutKeeps(db.notifications, NotificationWithId(id));
          (Response(200, Note("message", "Notification deleted successfully")),
           db.(notifications := Without(db.notifications, NotificationWithId(id))))
  }

  /** The lookup already filters by receiver, so the 403 answer is never given. */
  lemma NeverForbidden(db: Db, req: Requester, pathId: Option<int>)
    ensures DeleteNotification(db, req, pathId).0.status != 403
  {
  }

  /** Someone else's notification is reported missing, and nothing is deleted. */
  lemma OthersAreNotFound(db: Db, req: Requester, id: int)
    requires SignedIn(req)
    requires forall k :: 0 <= k < |db.notifications| && db.notifications[k].id == id ==> db.notifications[k].receiverId != req.userId.value
    ensures DeleteNotification(db, req, Some(id)) == (Response(404, Note("error", "Notification not found")), db)
  {
  }

  /** With unique ids, a successful delete removes exactly one notification. */
  lemma DeleteRemovesOne(db: Db, req: Requester, id: int)
    requires UniqueNotificationIds(db.notifications)
    requires DeleteNotification(db, req, Some(id)).0.status == 200
    ensures |DeleteNotification(db, req, Some(id)).1.notifications| == |db.notifications| - 1
  {
    var k := FirstIndex(db.notifications, Addressed(id, req.userId.value)).value;
    CountOne(db.notifications, NotificationWithId(id), k);
    WithoutCount(db.notifications, NotificationWithId(id));
  }

  /** The reply of `deleteAllNotifications` for `count` removed rows. */
  function AllDeleted(count: int): string {
    "All notifications (" + IntToString(count) + ") deleted successfully"
  }

  /**
   * `deleteAllNotifications`: removes the requester's notifications and
   * reports how many went.
   */
  function DeleteAllNotifications(db: Db, req: Requester): (out: (Response<()>, Db))
    ensures var (resp, db') := out;
            && (resp.status == 401 <==> !SignedIn(req))
            && (resp.status == 401 ==> db' == db && resp.body == Note("error", Unauthorized))
            && (resp.status != 401 ==>
                  && resp == Response(200, Note("message", AllDeleted(|db.notifications| - |db'.notifications|)))
                  && db' == db.(notifications := db'.notifications)
                  && IsSubseq(db'.notifications, db.notifications)
                  && forall n :: n in db'.notifications <==> n in db.notifications && n.receiverId != req.userId.value)
  {
    if !SignedIn(req) then (Fail(401, "error", Unauthorized), db)
    else
      var mine := ForReceiver(req.userId.value);
      var kept := Without(db.notifications, mine);
      assert forall n :: n in kept <==> n in db.notifications && n.receiverId != req.userId.value by {
        WithoutKeeps(db.notifications, mine);
      }
      assert Count(db.notifications, mine) == |db.notifications| - |kept| by {
        WithoutCount(db.notifications, mine);
      }
      (Response(200, Note("message", AllDeleted(Count(db.notifications, mine)))), db.(notifications := kept))
  }

  /** The reported count is the number of notifications the requester had. */
  lemma CountIsTheRequesters(db: Db, req: Requester)
    requires SignedIn(req)
    ensures var (resp, db') := DeleteAllNotifications(db, req);
            resp.body == Note("message", AllDeleted(Count(db.notifications, ForReceiver(req.userId.value))))
  {
    WithoutCount(db.notifications, ForReceiver(req.userId.value));
  }

  /** After deleting all, the requester's listing is empty. */
  lemma DeleteAllEmptiesListing(db: Db, req: Requester)
    requires SignedIn(req)
    ensures GetNotifications(DeleteAllNotifications(db, req).1, req).body == Payload([])
  {
    var db' := DeleteAllNotifications(db, req).1;
    var ns := GetNotifications(db', req).body.value;
    forall n: Notification ensures multiset(ns)[n] == 0 {
      if n.receiverId == req.userId.value {
        assert n !in db'.notifications;
      }
    }
    assert multiset(ns) == multiset{};
    assert |ns| == |multiset(ns)|;
  }

  /** Deleting all of one user's notifications leaves another user's listing as it was. */
  lemma DeleteAllSparesOthers(db: Db, req: Requester, other: Requester)
    requires SignedIn(req) && SignedIn(other) && other.userId != req.userId
    ensures var db' := DeleteAllNotifications(db, req).1;
            multiset(GetNotifications(db', other).body.value) == multiset(GetNotifications(db, other).body.value)
  {
    var u, v := req.userId.value, other.userId.value;
    WhereAfterWithout(db.notifications, ForReceiver(v), ForReceiver(u));
  }
}
