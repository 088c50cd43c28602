/**
 * The post handlers that decide something: lookup by id, owner-or-admin
 * update and delete (the delete clears the post's likes and comments
 * first), and the like endpoints.
 *
 * Path ids go through `Number(...)` without a NaN check here, so they are
 * plain integers; `userId` is the requester's id as the token left it.
 */
module Posts {
  import opened Text
  import opened Seqs
  import opened Store

  function PostWithId(id: int): Post -> bool {
    (p: Post) => p.id == id
  }

  function LikeOn(postId: int): Like -> bool {
    (l: Like) => l.postId == postId
  }

  function CommentOn(postId: int): Comment -> bool {
    (c: Comment) => c.postId == postId
  }

  /** The `userId_postId` compound key of the like table. */
  function LikeOf(user: int, postId: int): Like -> bool {
    (l: Like) => l.userId == user && l.postId == postId
  }

  function LikeBy(user: int): Like -> bool {
    (l: Like) => l.userId == user
  }

  predicate HasPost(posts: seq<Post>, id: int) {
    exists k :: 0 <= k < |posts| && posts[k].id == id
  }

  predicate Liked(likes: seq<Like>, user: int, postId: int) {
    exists k :: 0 <= k < |likes| && likes[k].userId == user && likes[k].postId == postId
  }

  /** Post ids are a primary key. */
  predicate UniquePostIds(posts: seq<Post>) {
    forall i, j :: 0 <= i < j < |posts| ==> posts[i].id != posts[j].id
  }

  /** `@@unique([userId, postId])` on the like table. */
  predicate UniqueLikes(likes: seq<Like>) {
    forall i, j :: 0 <= i < j < |likes| ==> likes[i].userId != likes[j].userId || likes[i].postId != likes[j].postId
  }

  /** `findUnique({where: {id}})`. */
  function FindPost(posts: seq<Post>, id: int): (i: Option<nat>)
    ensures i.Some? <==> HasPost(posts, id)
    ensures i.Some? ==> i.value < |posts| && posts[i.value].id == id
  {
    FirstIndex(posts, PostWithId(id))
  }

  /** `isOwner || isAdmin`: the post's author is the requester, or the requester's role is "admin". */
  predicate MayEdit(p: Post, req: Requester) {
    req.userId == Some(p.authorId) || IsAdmin(req)
  }

  /** `getPostById`; the joined author is left out of the reply. */
  function GetPostById(db: Db, id: int): (resp: Response<Post>)
    ensures resp.status == 404 <==> !HasPost(db.posts, id)
    ensures resp.status == 404 ==> resp.body == Note("error", "Post not found")
    ensures resp.status != 404 ==> resp.status == 200 && resp.body.Payload? && resp.body.value in db.posts && resp.body.value.id == id
  {
    match FindPost(db.posts, id)
    case None => Fail(404, "error", "Post not found")
    case Some(i) => Response(200, Payload(db.posts[i]))
  }

  /**
   * `updatePost`. An absent `title` or `content` (`undefined` in the body)
   * leaves that column as it was.
   */
  function UpdatePost(db: Db, req: Requester, id: int, title: Option<string>, content: Option<string>): (out: (Response<Post>, Db))
    ensures var (resp, db') := out;
            && (!HasPost(db.posts, id) ==> resp.status == 403)
            && (resp.status == 403 ==> db' == db && resp.body == Note("error", "Yetkisiz işlem"))
            && (resp.status != 403 ==>
                  && resp.status == 200 && resp.body.Payload?
                  && db' == db.(posts := db'.posts) && |db'.posts| == |db.posts|
                  && exists i :: 0 <= i < |db.posts| && db.posts[i].id == id && MayEdit(db.posts[i], req)
                       && db'.posts == db.posts[i := resp.body.value]
                       && resp.body.value.id == id && resp.body.value.authorId == db.posts[i].authorId
                       && resp.body.value.title == (if title.Some? then title.value else db.posts[i].title)
                       && resp.body.value.content == (if content.Some? then content.value else db.posts[i].content))
  {
    match FindPost(db.posts, id)
    case None => (Fail(403, "error", "Yetkisiz işlem"), db)
    case Some(i) =>
      var p := db.posts[i];
      if !MayEdit(p, req) then (Fail(403, "error", "Yetkisiz işlem"), db)
      else
        var q := p.(title := if title.Some? then title.value else p.title,
                    content := if content.Some? then content.value else p.content);
        (Response(200, Payload(q)), db.(posts := db.posts[i := q]))
  }

  /**
   * `deletePost`: the post's likes, then its comments, then the post.
   * Reactions and notifications are not touched.
   */
  function DeletePost(db: Db, req: Requester, id: int): (out: (Response<()>, Db))
    ensures var (resp, db') := out;
            && (!HasPost(db.posts, id) ==> resp.status == 403)
            && (resp.status == 403 ==> db' == db && resp.body == Note("error", "Yetkisiz işlem"))
            && (resp.status != 403 ==>
                  && resp == Response(204, NoBody)
                  && (exists i :: 0 <= i < |db.posts| && db.posts[i].id == id && MayEdit(db.posts[i], req))
                  && db'.users == db.users && db'.reactions == db.reactions
                  && db'.notifications == db.notifications && db'.nextId == db.nextId
                  && !HasPost(db'.posts, id)
                  && IsSubseq(db'.posts, db.posts) && IsSubseq(db'.likes, db.likes) && IsSubseq(db'.comments, db.comments)
                  && (forall p :: p in db'.posts <==> p in db.posts && p.id != id)
                  && (forall l :: l in db'.likes <==> l in db.likes && l.postId != id)
                  && (forall c :: c in db'.comments <==> c in db.comments && c.postId != id))
  {
    match FindPost(db.posts, id)
    case None => (Fail(403, "error", "Yetkisiz işlem"), db)
    case Some(i) =>
      if !MayEdit(db.posts[i], req) then (Fail(403, "error", "Yetkisiz işlem"), db)
      else
        WithoutKeeps(db.likes, LikeOn(id));
        WithoutKeeps(db.comments, CommentOn(id));
        WithoutKeeps(db.posts, PostWithId(id));
        var posts' := Without(db.posts, PostWithId(id));
        assert !HasPost(posts', id) by {
          forall k | 0 <= k < |posts'| ensures posts'[k].id != id {
            assert posts'[k] in posts';
          }
        }
        (Response(204, NoBody),
         db.(likes := Without(db.likes, LikeOn(id)),
             comments := Without(db.comments, CommentOn(id)),
             posts := posts'))
  }

  /** `likePost`: 401 without a user; otherwise `{liked: true}`, creating the like only if it is new. */
  function LikePost(db: Db, req: Requester, postId: int): (out: (Response<bool>, Db))
    ensures var (resp, db') := out;
            && (resp.status == 401 <==> !SignedIn(req))
            && (resp.status == 401 ==> db' == db && resp.body == Note("error", "Giriş yapmalısınız"))
            && (resp.status != 401 ==>
                  var u := req.userId.value;
                  && resp.body == Payload(true)
                  && Liked(db'.likes, u, postId)
                  && (resp.status == 201 <==> !Liked(db.likes, u, postId))
                  && (resp.status != 201 ==> resp.status == 200 && db' == db)
                  && (resp.status == 201 ==>
                        db' == db.(likes := db.likes + [Like(db.nextId, u, postId)], nextId := db.nextId + 1)))
  {
    if !SignedIn(req) then (Fail(401, "error", "Giriş yapmalısınız"), db)
    else
      var u := req.userId.value;
      match FirstIndex(db.likes, LikeOf(u, postId))
      case Some(_) => (Response(200, Payload(true)), db)
      case None =>
        var likes' := db.likes + [Like(db.nextId, u, postId)];
        assert likes'[|db.likes|].userId == u;
        (Response(201, Payload(true)), db.(likes := likes', nextId := db.nextId + 1))
  }

  /** `unlikePost`: 401 without a user; otherwise `{liked: false}` whether or not a like existed. */
  function UnlikePost(db: Db, req: Requester, postId: int): (out: (Response<bool>, Db))
    ensures var (resp, db') := out;
            && (resp.status == 401 <==> !SignedIn(req))
            && (resp.status == 401 ==> db' == db && resp.body == Note("error", "Giriş yapmalısınız"))
            && (resp.status != 401 ==>
                  var u := req.userId.value;
                  && resp == Response(200, Payload(false))
                  && db' == db.(likes := db'.likes)
                  && !Liked(db'.likes, u, postId)
                  && IsSubseq(db'.likes, db.likes)
                  && forall l :: l in db'.likes <==> l in db.likes && !(l.userId == u && l.postId == postId))
  {
    if !SignedIn(req) then (Fail(401, "error", "Giriş yapmalısınız"), db)
    else
      var u := req.userId.value;
      var likes' := Without(db.likes, LikeOf(u, postId));
      WithoutKeeps(db.likes, LikeOf(u, postId));
      assert !Liked(likes', u, postId) by {
        forall k | 0 <= k < |likes'| ensures !LikeOf(u, postId)(likes'[k]) {
          assert likes'[k] in likes';
        }
      }
      (Response(200, Payload(false)), db.(likes := likes'))
  }

  /** `isPostLiked`: always 200; `false` without a user. */
  function IsPostLiked(db: Db, req: Requester, postId: int): (resp: Response<bool>)
    ensures resp.status == 200 && resp.body.Payload?
    ensures resp.body.value <==> SignedIn(req) && Liked(db.likes, req.userId.value, postId)
  {
    if !SignedIn(req) then Response(200, Payload(false))
    else
      var found := FirstIndex(db.likes, LikeOf(req.userId.value, postId));
      Response(200, Payload(found.Some?))
  }

  /** The `orderBy: {id: "desc"}` key. */
  function NewestFirst(): Like -> int {
    (l: Like) => -l.id
  }

  /** The caller's likes as `findMany({ where: { userId }, orderBy: { id: "desc" } })` returns them. */
  function LikesNewestFirst(likes: seq<Like>, user: int): (ls: seq<Like>)
    ensures forall l :: multiset(ls)[l] == if l.userId == user then multiset(likes)[l] else 0
    ensures forall i, j :: 0 <= i < j < |ls| ==> ls[i].id >= ls[j].id
  {
    SortedWhere(likes, LikeBy(user), NewestFirst());
    SortBy(Where(likes, LikeBy(user)), NewestFirst())
  }

  /**
   * `like.post`: the first post row with the like's `postId`. `None` stands
   * for a like whose post row is missing, which the foreign key of the
   * database rules out.
   */
  function PostOfLike(posts: seq<Post>, l: Like): (p: Option<Post>)
    ensures p.None? <==> !HasPost(posts, l.postId)
    ensures p.Some? ==> p.value in posts && p.value.id == l.postId
  {
    match FindPost(posts, l.postId)
    case None => None
    case Some(k) => Some(posts[k])
  }

  /** Every like points at a stored post: what the `Like.post` foreign key keeps true. */
  predicate LikesHavePosts(db: Db) {
    forall l :: l in db.likes ==> HasPost(db.posts, l.postId)
  }

  /**
   * `getLikedPosts`: the posts of the caller's likes (`likes.map(like =>
   * like.post)`), one per like, in the order of the likes, newest like first.
   */
  function GetLikedPosts(db: Db, req: Requester): (resp: Response<seq<Option<Post>>>)
    ensures resp.status == 401 <==> !SignedIn(req)
    ensures resp.status == 401 ==> resp.body == Note("error", "Giriş yapmalısınız")
    ensures resp.status != 401 ==>
              && resp.status == 200 && resp.body.Payload?
              && var ls := LikesNewestFirst(db.likes, req.userId.value);
              && |resp.body.value| == |ls|
              && (forall i :: 0 <= i < |ls| ==> resp.body.value[i] == PostOfLike(db.posts, ls[i]))
  {
    if !SignedIn(req) then Fail(401, "error", "Giriş yapmalısınız")
    else
      var ls := LikesNewestFirst(db.likes, req.userId.value);
      Response(200, Payload(seq(|ls|, i requires 0 <= i < |ls| => PostOfLike(db.posts, ls[i]))))
  }

  /**
   * While every like points at a stored post, each entry of the liked list
   * is a post: the one the caller liked at that position.
   */
  lemma LikedPostsResolve(db: Db, req: Requester)
    requires LikesHavePosts(db) && SignedIn(req)
    ensures var ps := GetLikedPosts(db, req).body.value;
            var ls := LikesNewestFirst(db.likes, req.userId.value);
            forall i :: 0 <= i < |ps| ==> ps[i].Some? && ps[i].value.id == ls[i].postId && ls[i].userId == req.userId.value
  {
    var ls := LikesNewestFirst(db.likes, req.userId.value);
    forall i | 0 <= i < |ls|
      ensures HasPost(db.posts, ls[i].postId) && ls[i].userId == req.userId.value
    {
      assert multiset(ls)[ls[i]] > 0;
    }
  }

  /** Deleting a post also deletes its likes, so no like is left pointing at it. */
  lemma DeleteKeepsLikesHavePosts(db: Db, req: Requester, id: int)
    requires LikesHavePosts(db)
    ensures LikesHavePosts(DeletePost(db, req, id).1)
  {
    var db' := DeletePost(db, req, id).1;
    forall l | l in db'.likes
      ensures HasPost(db'.posts, l.postId)
    {
      if db' != db {
        var k :| 0 <= k < |db.posts| && db.posts[k].id == l.postId;
        assert db.posts[k] in db'.posts;
      }
    }
  }

  /**
   * Liking a stored post keeps every like pointing at a stored post; the
   * handler itself does not look the post up, so that is the caller's part.
   */
  lemma LikeKeepsLikesHavePosts(db: Db, req: Requester, postId: int)
    requires LikesHavePosts(db) && HasPost(db.posts, postId)
    ensures LikesHavePosts(LikePost(db, req, postId).1)
  {
  }

  /** A first like on a post that is not stored leaves a like pointing nowhere. */
  lemma LikeOnMissingPost(db: Db, req: Requester, postId: int)
    requires SignedIn(req) && !HasPost(db.posts, postId) && !Liked(db.likes, req.userId.value, postId)
    ensures !LikesHavePosts(LikePost(db, req, postId).1)
  {
    var db' := LikePost(db, req, postId).1;
    assert db'.likes[|db.likes|] in db'.likes;
  }

  /** With unique post ids, update and delete are refused exactly when no owner-or-admin match exists. */
  lemma EditAllowedIff(db: Db, req: Requester, id: int, title: Option<string>, content: Option<string>)
    requires UniquePostIds(db.posts)
    ensures UpdatePost(db, req, id, title, content).0.status != 403
            <==> exists i :: 0 <= i < |db.posts| && db.posts[i].id == id && MayEdit(db.posts[i], req)
    ensures DeletePost(db, req, id).0.status != 403
            <==> exists i :: 0 <= i < |db.posts| && db.posts[i].id == id && MayEdit(db.posts[i], req)
  {
    if exists i :: 0 <= i < |db.posts| && db.posts[i].id == id && MayEdit(db.posts[i], req) {
      var i :| 0 <= i < |db.posts| && db.posts[i].id == id && MayEdit(db.posts[i], req);
      var f := FindPost(db.posts, id);
      assert f.Some? && db.posts[f.value].id == db.posts[i].id;
      assert f == Some(i);
    }
  }

  /**
   * Behind `authenticateToken`, which sets no role, only the author can
   * update or delete a post.
   */
  lemma OnlyAuthorThroughToken(db: Db, user: Option<int>, id: int, title: Option<string>, content: Option<string>)
    ensures UpdatePost(db, FromToken(user), id, title, content).0.status != 403
            ==> exists i :: 0 <= i < |db.posts| && db.posts[i].id == id && user == Some(db.posts[i].authorId)
    ensures DeletePost(db, FromToken(user), id).0.status != 403
            ==> exists i :: 0 <= i < |db.posts| && db.posts[i].id == id && user == Some(db.posts[i].authorId)
  {
  }

  /** After a successful delete the post is gone. */
  lemma DeleteThenGet(db: Db, req: Requester, id: int)
    requires DeletePost(db, req, id).0.status == 204
    ensures GetPostById(DeletePost(db, req, id).1, id).status == 404
  {
  }

  /** A second like changes nothing and answers 200. */
  lemma LikeTwice(db: Db, req: Requester, postId: int)
    requires SignedIn(req)
    ensures var db1 := LikePost(db, req, postId).1;
            LikePost(db1, req, postId) == (Response(200, Payload(true)), db1)
  {
  }

  /** Liking never breaks the one-like-per-user-and-post rule. */
  lemma LikeKeepsUnique(db: Db, req: Requester, postId: int)
    requires UniqueLikes(db.likes)
    ensures UniqueLikes(LikePost(db, req, postId).1.likes)
  {
    var (resp, db') := LikePost(db, req, postId);
    if resp.status == 201 {
      var u := req.userId.value;
      forall i, j | 0 <= i < j < |db'.likes|
        ensures db'.likes[i].userId != db'.likes[j].userId || db'.likes[i].postId != db'.likes[j].postId
      {
        if j == |db.likes| {
          assert db'.likes[i] == db.likes[i];
        }
      }
    }
  }

  /** Liking a post not yet liked and then unliking it restores the like table. */
  lemma LikeThenUnlike(db: Db, req: Requester, postId: int)
    requires SignedIn(req) && !Liked(db.likes, req.userId.value, postId)
    ensures UnlikePost(LikePost(db, req, postId).1, req, postId).1.likes == db.likes
  {
    var u := req.userId.value;
    var created := Like(db.nextId, u, postId);
    WithoutSnoc(db.likes, created, LikeOf(u, postId));
    WithoutNothing(db.likes, LikeOf(u, postId));
  }

  /** `isPostLiked` agrees with the like and unlike handlers. */
  lemma LikedReflectsHandlers(db: Db, req: Requester, postId: int)
    requires SignedIn(req)
    ensures IsPostLiked(LikePost(db, req, postId).1, req, postId).body == Payload(true)
    ensures IsPostLiked(UnlikePost(db, req, postId).1, req, postId).body == Payload(false)
  {
  }
}
