/**
 * The notifications slice of the front end's store. Besides the fetch,
 * delete and create results it has two plain reducers: one for a
 * notification pushed over the socket and one that empties the list.
 * Unlike the posts slice, a successful fetch does not clear the error;
 * only the pending action does.
 */
module NotificationSlice {
  import opened Text
  import opened Seqs

  /** A notification as the client receives it. */
  datatype Notification = Notification(id: int, content: string, createdAt: string, receiverId: int, isRead: bool)

  datatype NotificationState = NotificationState(notifications: seq<Notification>, loading: bool, error: Option<string>)

  /** The actions the slice reacts to. A rejection's payload is `None` when it is `undefined`. */
  datatype Action =
    | FromSocket(pushed: Notification)
    | Clear
    | FetchPending
    | FetchFulfilled(list: seq<Notification>)
    | FetchRejected(reason: Option<string>)
    | DeleteFulfilled(id: int)
    | CreateFulfilled(created: Notification)
    | Other

  const Initial := NotificationState([], false, None)

  function NotificationWithId(id: int): Notification -> bool {
    (n: Notification) => n.id == id
  }

  function Id(): Notification -> int {
    (n: Notification) => n.id
  }

  /** `addNotificationFromSocket` and create fulfilled: the newcomer goes in front. */
  function Prepend(s: NotificationState, n: Notification): (r: NotificationState)
    ensures |r.notifications| == |s.notifications| + 1
    ensures r.notifications[0] == n && r.notifications[1..] == s.notifications
    ensures r.loading == s.loading && r.error == s.error
  {
    s.(notifications := [n] + s.notifications)
  }

  /** `clearNotifications`: the list empties; loading and error stay. */
  function Cleared(s: NotificationState): (r: NotificationState)
    ensures r.notifications == [] && r.loading == s.loading && r.error == s.error
  {
    s.(notifications := [])
  }

  /** Fetch pending: loading starts and the last error is cleared. */
  function StartLoading(s: NotificationState): (r: NotificationState)
    ensures r.notifications == s.notifications && r.loading && r.error.None?
  {
    s.(loading := true, error := None)
  }

  /** Fetch fulfilled: the list arrives whole; the error is not touched. */
  function Fetched(s: NotificationState, list: seq<Notification>): (r: NotificationState)
    ensures r.notifications == list && !r.loading && r.error == s.error
  {
    s.(notifications := list, loading := false)
  }

  /** Fetch rejected: the list stays and the error is the payload as it came. */
  function FetchFailedWith(s: NotificationState, reason: Option<string>): (r: NotificationState)
    ensures r.notifications == s.notifications && !r.loading && r.error == reason
  {
    s.(error := reason, loading := false)
  }

  /** Delete fulfilled: every notification with the id goes; the others keep their order. */
  function Remove(s: NotificationState, id: int): (r: NotificationState)
    ensures IsSubseq(r.notifications, s.notifications)
    ensures forall n :: n in r.notifications <==> n in s.notifications && n.id != id
    ensures r.loading == s.loading && r.error == s.error
  {
    WithoutKeeps(s.notifications, NotificationWithId(id));
    s.(notifications := Without(s.notifications, NotificationWithId(id)))
  }

  /**
   * The slice's reducer. Only a pushed, created, fetched, deleted or cleared
   * list changes the list, and every notification it then holds was listed
   * before or came with the action. Loading is on exactly after the fetch
   * is pending, or when it was on and the action is not a fetch result. Only
   * the fetch's pending and rejected actions touch the error.
   */
  function Reduce(s: NotificationState, a: Action): (r: NotificationState)
    ensures a.Other? ==> r == s
    ensures r.notifications != s.notifications ==>
              a.FromSocket? || a.Clear? || a.FetchFulfilled? || a.DeleteFulfilled? || a.CreateFulfilled?
    ensures forall n :: n in r.notifications ==>
              || n in s.notifications
              || (a.FetchFulfilled? && n in a.list)
              || (a.FromSocket? && n == a.pushed)
              || (a.CreateFulfilled? && n == a.created)
    ensures r.loading <==> a.FetchPending? || (s.loading && !a.FetchFulfilled? && !a.FetchRejected?)
    ensures r.error != s.error ==> a.FetchPending? || a.FetchRejected?
    ensures a.FetchPending? ==> r.error.None?
    ensures a.FetchRejected? ==> r.error == a.reason
  {
    match a
    case FromSocket(n) => Prepend(s, n)
    case Clear => Cleared(s)
    case FetchPending => StartLoading(s)
    case FetchFulfilled(list) => Fetched(s, list)
    case FetchRejected(reason) => FetchFailedWith(s, reason)
    case DeleteFulfilled(id) => Remove(s, id)
    case CreateFulfilled(n) => Prepend(s, n)
    case Other => s
  }

  /** A notification pushed over the socket and one created by this client land in the same place. */
  lemma SocketAndCreateAgree(s: NotificationState, n: Notification)
    ensures Reduce(s, FromSocket(n)) == Reduce(s, CreateFulfilled(n))
  {
  }

  /** Deleting a notification just pushed, whose id was new, gives back the state before the push. */
  lemma PushThenDelete(s: NotificationState, n: Notification)
    requires forall k :: 0 <= k < |s.notifications| ==> s.notifications[k].id != n.id
    ensures Reduce(Reduce(s, FromSocket(n)), DeleteFulfilled(n.id)) == s
  {
    WithoutUndoesCons(n, s.notifications, NotificationWithId(n.id));
  }

  /** A second delete of the same id changes nothing. */
  lemma DeleteTwice(s: NotificationState, id: int)
    ensures Reduce(Reduce(s, DeleteFulfilled(id)), DeleteFulfilled(id)) == Reduce(s, DeleteFulfilled(id))
  {
    WithoutTwice(s.notifications, NotificationWithId(id));
  }

  /** An error from a failed fetch is still shown after a later fetch succeeds without a pending action between. */
  lemma FetchedKeepsError(s: NotificationState, reason: string, list: seq<Notification>)
    ensures Reduce(Reduce(s, FetchRejected(Some(reason))), FetchFulfilled(list)) == NotificationState(list, false, Some(reason))
  {
  }

  /** What an action must bring for the list to keep one notification per id. */
  predicate Admissible(s: NotificationState, a: Action) {
    && (a.FetchFulfilled? ==> UniqueBy(a.list, Id()))
    && (a.FromSocket? ==> forall k :: 0 <= k < |s.notifications| ==> s.notifications[k].id != a.pushed.id)
    && (a.CreateFulfilled? ==> forall k :: 0 <= k < |s.notifications| ==> s.notifications[k].id != a.created.id)
  }

  /** No action puts two notifications with one id in the list, given admissible payloads. */
  lemma KeepsUniqueIds(s: NotificationState, a: Action)
    requires UniqueBy(s.notifications, Id()) && Admissible(s, a)
    ensures UniqueBy(Reduce(s, a).notifications, Id())
  {
    var r := Reduce(s, a);
    match a
    case FromSocket(n) =>
      assert forall k :: 1 <= k < |r.notifications| ==> r.notifications[k] == s.notifications[k - 1];
    case CreateFulfilled(n) =>
      assert forall k :: 1 <= k < |r.notifications| ==> r.notifications[k] == s.notifications[k - 1];
    case DeleteFulfilled(id) =>
      SubseqUniqueBy(r.notifications, s.notifications, Id());
    case _ =>
  }
}
