/**
 * The posts slice of the front end's store: the list the post pages show,
 * a loading flag and the last error. Each case of the slice's
 * `extraReducers` is a pure transition on the state; `Reduce` sends an
 * action to its case, and an action the slice has no case for (the add and
 * delete pending and rejected actions, among others) leaves the state as
 * it is.
 */
module PostsSlice {
  import opened Text
  import opened Seqs

  /** A post as the client receives it. The optional joined author is not kept. */
  datatype Post = Post(id: int, title: string, content: string, authorId: int, createdAt: string)

  datatype PostsState = PostsState(posts: seq<Post>, loading: bool, error: Option<string>)

  /** The actions the slice reacts to. A rejection's payload is `None` when it is `undefined`. */
  datatype Action =
    | FetchPending
    | FetchFulfilled(list: seq<Post>)
    | FetchRejected(reason: Option<string>)
    | AddFulfilled(post: Post)
    | DeleteFulfilled(id: int)
    | UpdatePending
    | UpdateFulfilled(post: Post)
    | UpdateRejected(reason: Option<string>)
    | Other

  const Initial := PostsState([], false, None)

  /** The message a failed fetch shows when it carries none. */
  const FetchFailed := "Post yükleme hatası"

  function PostWithId(id: int): Post -> bool {
    (p: Post) => p.id == id
  }

  function Id(): Post -> int {
    (p: Post) => p.id
  }

  /** The fetch and update pending cases: loading starts and the last error is cleared. */
  function StartLoading(s: PostsState): (r: PostsState)
    ensures r.posts == s.posts && r.loading && r.error.None?
  {
    s.(loading := true, error := None)
  }

  /** Fetch fulfilled: the list arrives whole, replacing whatever was shown. */
  function Fetched(s: PostsState, list: seq<Post>): (r: PostsState)
    ensures r.posts == list && !r.loading && r.error.None?
  {
    s.(posts := list, loading := false, error := None)
  }

  /** Fetch rejected: the list stays, and the error is the payload or the fallback message. */
  function FetchFailedWith(s: PostsState, reason: Option<string>): (r: PostsState)
    ensures r.posts == s.posts && !r.loading && r.error.Some?
    ensures reason.Some? && reason.value != "" ==> r.error.value == reason.value
    ensures reason.None? || reason.value == "" ==> r.error.value == FetchFailed
  {
    s.(loading := false, error := Some(OrElse(reason, FetchFailed)))
  }

  /** Add fulfilled: the new post goes in front of the others, which keep their order. */
  function Prepend(s: PostsState, p: Post): (r: PostsState)
    ensures |r.posts| == |s.posts| + 1 && r.posts[0] == p && r.posts[1..] == s.posts
    ensures r.loading == s.loading && r.error == s.error
  {
    s.(posts := [p] + s.posts)
  }

  /** Delete fulfilled: every post with the id goes; the others keep their order. */
  function Remove(s: PostsState, id: int): (r: PostsState)
    ensures IsSubseq(r.posts, s.posts)
    ensures forall p :: p in r.posts <==> p in s.posts && p.id != id
    ensures r.loading == s.loading && r.error == s.error
  {
    WithoutKeeps(s.posts, PostWithId(id));
    s.(posts := Without(s.posts, PostWithId(id)))
  }

  /**
   * Update fulfilled: the first post with the payload's id is replaced by
   * the payload; with no such post the list stays. The error is left as
   * it was.
   */
  function Replace(s: PostsState, p: Post): (r: PostsState)
    ensures !r.loading && r.error == s.error
    ensures forall q :: q in r.posts ==> q in s.posts || q == p
    ensures |r.posts| == |s.posts| && forall k :: 0 <= k < |s.posts| ==> r.posts[k].id == s.posts[k].id
    ensures (forall k :: 0 <= k < |s.posts| ==> s.posts[k].id != p.id) ==> r.posts == s.posts
    ensures forall i :: 0 <= i < |s.posts| && s.posts[i].id == p.id && (forall k :: 0 <= k < i ==> s.posts[k].id != p.id)
                        ==> r.posts == s.posts[i := p]
  {
    var posts := match FirstIndex(s.posts, PostWithId(p.id))
      case None => s.posts
      case Some(i) => s.posts[i := p];
    forall i | 0 <= i < |s.posts| && s.posts[i].id == p.id && (forall k :: 0 <= k < i ==> s.posts[k].id != p.id)
      ensures posts == s.posts[i := p]
    {
      FirstIndexIs(s.posts, PostWithId(p.id), i);
    }
    s.(posts := posts, loading := false)
  }

  /** Update rejected: the list stays and the error is the payload as it came, possibly `undefined`. */
  function UpdateFailed(s: PostsState, reason: Option<string>): (r: PostsState)
    ensures r.posts == s.posts && !r.loading && r.error == reason
  {
    s.(loading := false, error := reason)
  }

  /**
   * The slice's reducer. Only a fetch, add, delete or update result changes
   * the list, and every post it then holds was listed before or came with
   * the action. Loading is on exactly after a pending action, or when it was
   * on and an add, a delete or an ignored action follows. Only a pending
   * action, a fetch result or an update rejection changes the error: pending
   * and a fetched list clear it, and a failed fetch always leaves one.
   */
  function Reduce(s: PostsState, a: Action): (r: PostsState)
    ensures a.Other? ==> r == s
    ensures r.posts != s.posts ==> a.FetchFulfilled? || a.AddFulfilled? || a.DeleteFulfilled? || a.UpdateFulfilled?
    ensures forall p :: p in r.posts ==>
              || p in s.posts
              || (a.FetchFulfilled? && p in a.list)
              || ((a.AddFulfilled? || a.UpdateFulfilled?) && p == a.post)
    ensures r.loading <==> a.FetchPending? || a.UpdatePending? || (s.loading && (a.AddFulfilled? || a.DeleteFulfilled? || a.Other?))
    ensures r.error != s.error ==> a.FetchPending? || a.UpdatePending? || a.FetchFulfilled? || a.FetchRejected? || a.UpdateRejected?
    ensures a.FetchPending? || a.UpdatePending? || a.FetchFulfilled? ==> r.error.None?
    ensures a.FetchRejected? ==> r.error.Some?
  {
    match a
    case FetchPending => StartLoading(s)
    case FetchFulfilled(list) => Fetched(s, list)
    case FetchRejected(reason) => FetchFailedWith(s, reason)
    case AddFulfilled(p) => Prepend(s, p)
    case DeleteFulfilled(id) => Remove(s, id)
    case UpdatePending => StartLoading(s)
    case UpdateFulfilled(p) => Replace(s, p)
    case UpdateRejected(reason) => UpdateFailed(s, reason)
    case Other => s
  }

  /** Deleting a post just added, whose id was new, gives back the state before the add. */
  lemma AddThenDelete(s: PostsState, p: Post)
    requires forall k :: 0 <= k < |s.posts| ==> s.posts[k].id != p.id
    ensures Reduce(Reduce(s, AddFulfilled(p)), DeleteFulfilled(p.id)) == s
  {
    var drop := PostWithId(p.id);
    assert drop(p) && forall k :: 0 <= k < |s.posts| ==> !drop(s.posts[k]);
    WithoutUndoesCons(p, s.posts, drop);
  }

  /** A second delete of the same id changes nothing. */
  lemma DeleteTwice(s: PostsState, id: int)
    ensures Reduce(Reduce(s, DeleteFulfilled(id)), DeleteFulfilled(id)) == Reduce(s, DeleteFulfilled(id))
  {
    WithoutTwice(s.posts, PostWithId(id));
  }

  /** After an update of a listed post, looking the id up finds the payload, at the same place as before. */
  lemma UpdateThenFind(s: PostsState, p: Post, i: nat)
    requires i < |s.posts| && s.posts[i].id == p.id
    ensures var r := Reduce(s, UpdateFulfilled(p));
            && FirstIndex(r.posts, PostWithId(p.id)) == FirstIndex(s.posts, PostWithId(p.id))
            && r.posts[FirstIndex(r.posts, PostWithId(p.id)).value] == p
  {
    var f := FirstIndex(s.posts, PostWithId(p.id));
    assert f.Some?;
    var r := Reduce(s, UpdateFulfilled(p));
    FirstIndexIs(r.posts, PostWithId(p.id), f.value);
  }

  /** What an action must bring for the list to keep one post per id. */
  predicate Admissible(s: PostsState, a: Action) {
    && (a.FetchFulfilled? ==> UniqueBy(a.list, Id()))
    && (a.AddFulfilled? ==> forall k :: 0 <= k < |s.posts| ==> s.posts[k].id != a.post.id)
  }

  /** No action puts two posts with one id in the list, given a fetched list without repeats and a new post with a new id. */
  lemma KeepsUniqueIds(s: PostsState, a: Action)
    requires UniqueBy(s.posts, Id()) && Admissible(s, a)
    ensures UniqueBy(Reduce(s, a).posts, Id())
  {
    var r := Reduce(s, a);
    match a
    case AddFulfilled(p) =>
      assert forall k :: 1 <= k < |r.posts| ==> r.posts[k] == s.posts[k - 1];
    case DeleteFulfilled(id) =>
      SubseqUniqueBy(r.posts, s.posts, Id());
    case UpdateFulfilled(p) =>
      assert forall k :: 0 <= k < |r.posts| ==> Id()(r.posts[k]) == Id()(s.posts[k]);
    case _ =>
  }

  /** A fetch answered after its pending action shows exactly the fetched list, with no error. */
  lemma FetchCycle(s: PostsState, list: seq<Post>)
    ensures Reduce(Reduce(s, FetchPending), FetchFulfilled(list)) == PostsState(list, false, None)
  {
  }
}
