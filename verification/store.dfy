/**
 * The database the Express handlers talk to, read as immutable tables,
 * plus the request and response shapes the handlers share.
 *
 * Each table is a sequence of rows in storage order. Ids are handed out by
 * one counter, `nextId`, standing in for the tables' auto-increment keys.
 */
module Store {
  import opened Text

  datatype User = User(id: int, name: string, email: string, username: string, password: string, role: string)
  datatype Post = Post(id: int, authorId: int, title: string, content: string)
  datatype Like = Like(id: int, userId: int, postId: int)
  /** A comment whose author row is gone has no author. */
  datatype Comment = Comment(id: int, postId: int, authorId: Option<int>, text: string, createdAt: int)
  /** A reaction belongs to a post (`commentId` null) or to a comment (`postId` null). */
  datatype Reaction = Reaction(id: int, userId: int, postId: Option<int>, commentId: Option<int>, kind: string)
  datatype Notification = Notification(id: int, receiverId: int, content: string, createdAt: int)

  datatype Db = Db(
    users: seq<User>,
    posts: seq<Post>,
    likes: seq<Like>,
    comments: seq<Comment>,
    reactions: seq<Reaction>,
    notifications: seq<Notification>,
    nextId: int)

  /**
   * The caller as the authentication middleware leaves the request:
   * `req.userId` as decoded from the token and `req.userRole`.
   */
  datatype Requester = Requester(userId: Option<int>, role: Option<string>)

  /** `!req.userId` is false: there is an id and it is not 0. */
  predicate SignedIn(r: Requester) {
    r.userId.Some? && r.userId.value != 0
  }

  /**
   * The requester `authenticateToken` produces: it copies `userId` out of
   * the token and sets no role.
   */
  function FromToken(userId: Option<int>): (r: Requester)
    ensures r.userId == userId && r.role.None?
    ensures !IsAdmin(r)
  {
    Requester(userId, None)
  }

  predicate IsAdmin(r: Requester) {
    r.role == Some("admin")
  }

  /** The JSON body of a reply: `{key: text}` for errors and messages, or a payload. */
  datatype Body<T> = Note(key: string, text: string) | Payload(value: T) | NoBody

  datatype Response<T> = Response(status: int, body: Body<T>)

  function Fail<T>(status: int, key: string, text: string): (r: Response<T>)
    ensures r.status == status && r.body.Note?
  {
    Response(status, Note(key, text))
  }
}
