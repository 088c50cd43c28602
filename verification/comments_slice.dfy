/**
 * The comments slice of the front end's store: the comments of the post
 * being read. One pending, fulfilled and rejected triple serves the fetch;
 * a new comment is appended at the end, the order the server lists them in.
 */
module CommentsSlice {
  import opened Text
  import opened Seqs

  datatype Author = Author(id: int, name: string, email: string)

  /** A comment as the client receives it. */
  datatype Comment = Comment(id: int, text: string, createdAt: string, postId: int, author: Option<Author>)

  datatype CommentsState = CommentsState(items: seq<Comment>, loading: bool, error: Option<string>)

  /** The actions the slice reacts to. A rejection carries the thrown error's message, if any. */
  datatype Action =
    | FetchPending
    | FetchFulfilled(list: seq<Comment>)
    | FetchRejected(message: Option<string>)
    | AddFulfilled(added: Comment)
    | DeleteFulfilled(id: int)
    | Other

  const Initial := CommentsState([], false, None)

  function CommentWithId(id: int): Comment -> bool {
    (c: Comment) => c.id == id
  }

  function Id(): Comment -> int {
    (c: Comment) => c.id
  }

  /** Fetch pending: loading starts and the last error is cleared. */
  function StartLoading(s: CommentsState): (r: CommentsState)
    ensures r.items == s.items && r.loading && r.error.None?
  {
    s.(loading := true, error := None)
  }

  /** Fetch fulfilled: the list arrives whole; the error is not touched. */
  function Fetched(s: CommentsState, list: seq<Comment>): (r: CommentsState)
    ensures r.items == list && !r.loading && r.error == s.error
  {
    s.(loading := false, items := list)
  }

  /** Fetch rejected: the list stays and the error is the message. */
  function Failed(s: CommentsState, message: Option<string>): (r: CommentsState)
    ensures r.items == s.items && !r.loading && r.error == message
  {
    s.(loading := false, error := message)
  }

  /** Add fulfilled: the new comment goes after the others. */
  function Append(s: CommentsState, c: Comment): (r: CommentsState)
    ensures |r.items| == |s.items| + 1 && r.items[|s.items|] == c && r.items[..|s.items|] == s.items
    ensures r.loading == s.loading && r.error == s.error
  {
    s.(items := s.items + [c])
  }

  /** Delete fulfilled: every comment with the id goes; the others keep their order. */
  function Remove(s: CommentsState, id: int): (r: CommentsState)
    ensures IsSubseq(r.items, s.items)
    ensures forall c :: c in r.items <==> c in s.items && c.id != id
    ensures r.loading == s.loading && r.error == s.error
  {
    WithoutKeeps(s.items, CommentWithId(id));
    s.(items := Without(s.items, CommentWithId(id)))
  }

  /**
   * The slice's reducer. Only a fetched, added or deleted comment changes
   * the list, and every comment it then holds was listed before or came
   * with the action. Loading is on exactly after the fetch is pending, or
   * when it was on and the action is not a fetch result. Only the fetch's
   * pending and rejected actions touch the error.
   */
  function Reduce(s: CommentsState, a: Action): (r: CommentsState)
    ensures a.Other? ==> r == s
    ensures r.items != s.items ==> a.FetchFulfilled? || a.AddFulfilled? || a.DeleteFulfilled?
    ensures forall c :: c in r.items ==>
              || c in s.items
              || (a.FetchFulfilled? && c in a.list)
              || (a.AddFulfilled? && c == a.added)
    ensures r.loading <==> a.FetchPending? || (s.loading && !a.FetchFulfilled? && !a.FetchRejected?)
    ensures r.error != s.error ==> a.FetchPending? || a.FetchRejected?
    ensures a.FetchPending? ==> r.error.None?
    ensures a.FetchRejected? ==> r.error == a.message
  {
    match a
    case FetchPending => StartLoading(s)
    case FetchFulfilled(list) => Fetched(s, list)
    case FetchRejected(message) => Failed(s, message)
    case AddFulfilled(c) => Append(s, c)
    case DeleteFulfilled(id) => Remove(s, id)
    case Other => s
  }

  /** Deleting a comment just added, whose id was new, gives back the state before the add. */
  lemma AddThenDelete(s: CommentsState, c: Comment)
    requires forall k :: 0 <= k < |s.items| ==> s.items[k].id != c.id
    ensures Reduce(Reduce(s, AddFulfilled(c)), DeleteFulfilled(c.id)) == s
  {
    WithoutUndoesSnoc(s.items, c, CommentWithId(c.id));
  }

  /** A second delete of the same id changes nothing. */
  lemma DeleteTwice(s: CommentsState, id: int)
    ensures Reduce(Reduce(s, DeleteFulfilled(id)), DeleteFulfilled(id)) == Reduce(s, DeleteFulfilled(id))
  {
    WithoutTwice(s.items, CommentWithId(id));
  }

  /** What an action must bring for the list to keep one comment per id. */
  predicate Admissible(s: CommentsState, a: Action) {
    && (a.FetchFulfilled? ==> UniqueBy(a.list, Id()))
    && (a.AddFulfilled? ==> forall k :: 0 <= k < |s.items| ==> s.items[k].id != a.added.id)
  }

  /** No action puts two comments with one id in the list, given admissible payloads. */
  lemma KeepsUniqueIds(s: CommentsState, a: Action)
    requires UniqueBy(s.items, Id()) && Admissible(s, a)
    ensures UniqueBy(Reduce(s, a).items, Id())
  {
    var r := Reduce(s, a);
    match a
    case AddFulfilled(c) =>
      assert forall k :: 0 <= k < |s.items| ==> r.items[k] == s.items[k];
    case DeleteFulfilled(id) =>
      SubseqUniqueBy(r.items, s.items, Id());
    case _ =>
  }
}
