/**
 * The comment handlers: the listing of a post's comments, adding one, and
 * deleting one. Path ids go through `parseInt` and are checked for NaN;
 * `None` stands for NaN.
 */
module Comments {
  import opened Text
  import opened Seqs
  import opened Store
  import opened Validators

  /** The `author` object of a reply: `{id, name, email}`. */
  datatype Author = Author(id: int, name: string, email: string)

  /** One comment as the handlers send it back. */
  datatype CommentView = CommentView(id: int, text: string, createdAt: int, author: Option<Author>)

  function UserWithId(id: int): User -> bool {
    (u: User) => u.id == id
  }

  function CommentWithId(id: int): Comment -> bool {
    (c: Comment) => c.id == id
  }

  function CommentOnPost(postId: int): Comment -> bool {
    (c: Comment) => c.postId == postId
  }

  /** The `orderBy: {createdAt: "asc"}` key. */
  function Oldest(): Comment -> int {
    (c: Comment) => c.createdAt
  }

  predicate UniqueCommentIds(cs: seq<Comment>) {
    forall i, j :: 0 <= i < j < |cs| ==> cs[i].id != cs[j].id
  }

  /**
   * The joined author: the user row the comment's `authorId` points at,
   * or null when the comment has no author.
   */
  function AuthorOf(users: seq<User>, authorId: Option<int>): (a: Option<Author>)
    ensures a.None? <==> authorId.None? || forall k :: 0 <= k < |users| ==> users[k].id != authorId.value
    ensures a.Some? ==>
              && a.value.id == authorId.value
              && exists k :: 0 <= k < |users| && users[k].id == a.value.id
                   && users[k].name == a.value.name && users[k].email == a.value.email
  {
    if authorId.None? then None
    else
      match FirstIndex(users, UserWithId(authorId.value))
      case None => None
      case Some(k) => Some(Author(users[k].id, users[k].name, users[k].email))
  }

  /** The reply object built from a comment row. */
  function View(users: seq<User>, c: Comment): (v: CommentView)
    ensures v.id == c.id && v.text == c.text && v.createdAt == c.createdAt
    ensures v.author.None? <==> c.authorId.None? || forall k :: 0 <= k < |users| ==> users[k].id != c.authorId.value
  {
    CommentView(c.id, c.text, c.createdAt, AuthorOf(users, c.authorId))
  }

  /** The rows `findMany({where: {postId}, orderBy: {createdAt: "asc"}})` returns. */
  function OnPost(comments: seq<Comment>, postId: int): (cs: seq<Comment>)
    ensures forall c :: multiset(cs)[c] == if c.postId == postId then multiset(comments)[c] else 0
    ensures forall i, j :: 0 <= i < j < |cs| ==> cs[i].createdAt <= cs[j].createdAt
  {
    var cs := SortBy(Where(comments, CommentOnPost(postId)), Oldest());
    assert forall i, j :: 0 <= i < j < |cs| ==> Oldest()(cs[i]) <= Oldest()(cs[j]);
    cs
  }

  /** `getCommentsByPost`. */
  function GetCommentsByPost(db: Db, pathId: Option<int>): (resp: Response<seq<CommentView>>)
    ensures resp.status == 400 <==> pathId.None?
    ensures resp.status == 400 ==> resp.body == Note("error", "Geçersiz post ID")
    ensures resp.status != 400 ==>
              && resp.status == 200 && resp.body.Payload?
              && var cs := OnPost(db.comments, pathId.value);
              && |resp.body.value| == |cs|
              && forall i :: 0 <= i < |cs| ==> resp.body.value[i] == View(db.users, cs[i])
  {
    if pathId.None? then Fail(400, "error", "Geçersiz post ID")
    else
      var cs := OnPost(db.comments, pathId.value);
      Response(200, Payload(seq(|cs|, i requires 0 <= i < |cs| => View(db.users, cs[i]))))
  }

  /** Every listed comment belongs to the post, and every comment of the post is listed. */
  lemma ListingIsThePosts(db: Db, postId: int)
    ensures var cs := OnPost(db.comments, postId);
            forall c :: c in cs <==> c in db.comments && c.postId == postId
  {
    var cs := OnPost(db.comments, postId);
    forall c
      ensures c in cs <==> c in db.comments && c.postId == postId
    {
      assert c in cs <==> multiset(cs)[c] > 0;
      assert c in db.comments <==> multiset(db.comments)[c] > 0;
    }
  }

  /**
   * `addComment`: a NaN post id, then a missing user, then blank text, each
   * answered before anything is stored. The text is stored as sent.
   * `now` is the database's `createdAt` default.
   */
  function AddComment(db: Db, req: Requester, pathId: Option<int>, text: Option<string>, now: int): (out: (Response<CommentView>, Db))
    ensures var (resp, db') := out;
            && (pathId.None? ==> resp == Response(400, Note("error", "Geçersiz post ID")))
            && (pathId.Some? && !SignedIn(req) ==> resp == Response(401, Note("error", "Kimlik doğrulama gerekli")))
            && (pathId.Some? && SignedIn(req) && (text.None? || AllIn(text.value, IsJsSpace)) ==>
                  resp == Response(400, Note("error", "Yorum boş olamaz")))
            && (resp.status != 201 ==> db' == db)
            && (resp.status == 201 <==> pathId.Some? && SignedIn(req) && text.Some? && !AllIn(text.value, IsJsSpace))
            && (resp.status == 201 ==>
                  var c := Comment(db.nextId, pathId.value, req.userId, text.value, now);
                  && resp.body == Payload(View(db.users, c))
                  && db' == db.(comments := db.comments + [c], nextId := db.nextId + 1))
  {
    if pathId.None? then (Fail(400, "error", "Geçersiz post ID"), db)
    else if !SignedIn(req) then (Fail(401, "error", "Kimlik doğrulama gerekli"), db)
    else if text.None? || text.value == "" || JsBlank(text.value) then
      Validators.BlankMeansSpace(if text.None? then Absent else JStr(text.value));
      (Fail(400, "error", "Yorum boş olamaz"), db)
    else
      Validators.BlankMeansSpace(JStr(text.value));
      var c := Comment(db.nextId, pathId.value, req.userId, text.value, now);
      (Response(201, Payload(View(db.users, c))), db.(comments := db.comments + [c], nextId := db.nextId + 1))
  }

  /**
   * The POST route: the body's `text` passes `validateComment` before the
   * handler sees it, so a non-string never reaches the handler.
   */
  function AddCommentRoute(db: Db, req: Requester, pathId: Option<int>, text: Field, now: int): (out: (Response<CommentView>, Db))
    ensures var (resp, db') := out;
            && (resp.status == 201 <==> pathId.Some? && SignedIn(req) && text.JStr? && !AllIn(text.s, IsJsSpace))
            && (resp.status == 201 ==>
                  && |db'.comments| == |db.comments| + 1 && db'.comments[..|db.comments|] == db.comments
                  && db'.comments[|db.comments|].text == text.s)
            && (resp.status != 201 ==> db' == db)
  {
    match ValidateComment(text)
    case Halt(status, key, message) => (Fail(status, key, message), db)
    case Next => AddComment(db, req, pathId, Some(text.s), now)
  }

  /** The answer of `deleteComment` when the id is found: owner or admin, else 403. */
  predicate MayDelete(c: Comment, req: Requester) {
    c.authorId == req.userId || IsAdmin(req)
  }

  /** `deleteComment`: 400, 401, 404 and 403, checked in that order. */
  function DeleteComment(db: Db, req: Requester, pathId: Option<int>): (out: (Response<()>, Db))
    ensures var (resp, db') := out;
            && (resp.status == 400 <==> pathId.None?)
            && (resp.status == 401 <==> pathId.Some? && !SignedIn(req))
            && (resp.status == 404 <==> pathId.Some? && SignedIn(req)
                                         && forall k :: 0 <= k < |db.comments| ==> db.comments[k].id != pathId.value)
            && (resp.status == 403 ==> exists k :: 0 <= k < |db.comments| && db.comments[k].id == pathId.value
                                                   && !MayDelete(db.comments[k], req))
            && (resp.status != 200 ==> db' == db && resp.body.Note?)
            && (resp.status == 200 ==>
                  && resp.body == Note("message", "Yorum silindi")
                  && SignedIn(req)
                  && (exists k :: 0 <= k < |db.comments| && db.comments[k].id == pathId.value
                                   && MayDelete(db.comments[k], req))
                  && db' == db.(comments := db'.comments)
                  && IsSubseq(db'.comments, db.comments)
                  && forall c :: c in db'.comments <==> c in db.comments && c.id != pathId.value)
  {
    if pathId.None? then (Fail(400, "error", "Geçersiz yorum ID"), db)
    else if !SignedIn(req) then (Fail(401, "error", "Kimlik doğrulama gerekli"), db)
    else
      var id := pathId.value;
      match FirstIndex(db.comments, CommentWithId(id))
      case None => (Fail(404, "error", "Yorum bulunamadı"), db)
      case Some(k) =>
        if !MayDelete(db.comments[k], req) then (Fail(403, "error", "Bu yorumu silmeye yetkiniz yok"), db)
        else
          WithoutKeeps(db.comments, CommentWithId(id));
          (Response(200, Note("message", "Yorum silindi")), db.(comments := Without(db.comments, CommentWithId(id))))
  }

  /** With unique comment ids, a successful delete removes exactly one row. */
  lemma DeleteRemovesOne(db: Db, req: Requester, pathId: Option<int>)
    requires UniqueCommentIds(db.comments)
    requires DeleteComment(db, req, pathId).0.status == 200
    ensures |DeleteComment(db, req, pathId).1.comments| == |db.comments| - 1
  {
    var id := pathId.value;
    var k := FirstIndex(db.comments, CommentWithId(id)).value;
    CountOne(db.comments, CommentWithId(id), k);
    WithoutCount(db.comments, CommentWithId(id));
  }

  /** With unique comment ids, 403 is answered exactly when the one comment with the id is someone else's and the caller is no admin. */
  lemma ForbiddenIff(db: Db, req: Requester, id: int)
    requires UniqueCommentIds(db.comments) && SignedIn(req)
    ensures DeleteComment(db, req, Some(id)).0.status == 403
            <==> exists k :: 0 <= k < |db.comments| && db.comments[k].id == id && !MayDelete(db.comments[k], req)
  {
    if exists k :: 0 <= k < |db.comments| && db.comments[k].id == id && !MayDelete(db.comments[k], req) {
      var k :| 0 <= k < |db.comments| && db.comments[k].id == id && !MayDelete(db.comments[k], req);
      var f := FirstIndex(db.comments, CommentWithId(id));
      assert f.Some? && db.comments[f.value].id == db.comments[k].id;
      assert f == Some(k);
    }
  }

  /** A comment added through the route is listed under its post, with the text as sent. */
  lemma AddedIsListed(db: Db, req: Requester, postId: int, text: string, now: int)
    requires SignedIn(req) && !AllIn(text, IsJsSpace)
    ensures var (resp, db') := AddCommentRoute(db, req, Some(postId), JStr(text), now);
            && resp.status == 201
            && Comment(db.nextId, postId, req.userId, text, now) in OnPost(db'.comments, postId)
  {
    var (resp, db') := AddCommentRoute(db, req, Some(postId), JStr(text), now);
    var c := Comment(db.nextId, postId, req.userId, text, now);
    assert db'.comments == db.comments + [c];
    ListingIsThePosts(db', postId);
    assert c in db'.comments;
  }
}
