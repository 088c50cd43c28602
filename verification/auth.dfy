/**
 * `signup` and `login`: field checks in a fixed order, the uniqueness
 * checks on email and username, and the reply `{token, user}`.
 *
 * Body fields are taken to be strings or missing; no schema guards these
 * routes, and other JSON values are not modelled. Password hashing and
 * comparison are parameters (`hash`, `matches`); the token is represented
 * by the claims it would be signed over, since signing is not part of this
 * model. The role a new user row receives is the schema's default, passed
 * in as `defaultRole`.
 */
module Auth {
  import opened Text
  import opened Seqs
  import opened Store

  /** A character `[^\s@]` accepts. */
  predicate EmailChar(c: char) {
    !IsJsSpace(c) && c != '@'
  }

  /**
   * `/^[^\s@]+@[^\s@]+\.[^\s@]+$/` matched with the `@` at `at` and the
   * `.` at `dot`: three non-empty runs of `[^\s@]` around them.
   */
  predicate RegexSplit(e: string, at: int, dot: int) {
    && 0 < at && at + 1 < dot && dot + 1 < |e| && e[at] == '@' && e[dot] == '.'
    && AllIn(e[..at], EmailChar) && AllIn(e[at + 1..dot], EmailChar) && AllIn(e[dot + 1..], EmailChar)
  }

  /** The email regular expression of `signup` accepts `e`. */
  predicate EmailRegex(e: string) {
    exists at, dot | 0 < at < dot < |e| :: RegexSplit(e, at, dot)
  }

  /** The only `@` of `e` is at `at`, with something before it and a `.` inside what follows. */
  predicate SoleAt(e: string, at: int) {
    && 0 < at < |e| && e[at] == '@'
    && (forall k :: 0 <= k < |e| && k != at ==> e[k] != '@')
    && exists dot :: at + 1 < dot < |e| - 1 && e[dot] == '.'
  }

  /**
   * The same language described by its parts: no whitespace, exactly one
   * `@`, something before it, and a `.` after it that is neither the first
   * nor the last character of the domain.
   */
  predicate EmailShape(e: string) {
    (forall k :: 0 <= k < |e| ==> !IsJsSpace(e[k])) && exists at | 0 < at < |e| :: SoleAt(e, at)
  }

  lemma EmailRegexIsShape(e: string)
    ensures EmailRegex(e) <==> EmailShape(e)
  {
    if EmailRegex(e) {
      var at, dot :| 0 < at < dot < |e| && RegexSplit(e, at, dot);
      RegexGivesShape(e, at, dot);
    }
    if EmailShape(e) {
      var at :| 0 < at < |e| && SoleAt(e, at);
      var dot :| at + 1 < dot < |e| - 1 && e[dot] == '.';
      ShapeGivesRegex(e, at, dot);
    }
  }

  lemma RegexGivesShape(e: string, at: int, dot: int)
    requires RegexSplit(e, at, dot)
    ensures EmailShape(e)
  {
    var pre, mid, post := e[..at], e[at + 1..dot], e[dot + 1..];
    forall k | 0 <= k < |e| && k != at && k != dot
      ensures EmailChar(e[k])
    {
      if k < at { assert e[k] == pre[k]; }
      else if k < dot { assert e[k] == mid[k - at - 1]; }
      else { assert e[k] == post[k - dot - 1]; }
    }
    assert SoleAt(e, at);
  }

  lemma ShapeGivesRegex(e: string, at: int, dot: int)
    requires forall k :: 0 <= k < |e| ==> !IsJsSpace(e[k])
    requires 0 < at < |e| && e[at] == '@' && forall k :: 0 <= k < |e| && k != at ==> e[k] != '@'
    requires at + 1 < dot < |e| - 1 && e[dot] == '.'
    ensures RegexSplit(e, at, dot)
  {
    var pre, mid, post := e[..at], e[at + 1..dot], e[dot + 1..];
    forall k | 0 <= k < |pre| ensures EmailChar(pre[k]) { assert pre[k] == e[k]; }
    forall k | 0 <= k < |mid| ensures EmailChar(mid[k]) { assert mid[k] == e[at + 1 + k]; }
    forall k | 0 <= k < |post| ensures EmailChar(post[k]) { assert post[k] == e[dot + 1 + k]; }
  }

  /** `!s || s.trim() === ""`. */
  predicate Blank(s: Option<string>) {
    s.None? || JsTrim(s.value) == ""
  }

  /** `Blank` is "missing, or whitespace only". */
  lemma BlankIsSpace(s: Option<string>)
    ensures Blank(s) <==> s.None? || AllIn(s.value, IsJsSpace)
  {
    if s.Some? {
      TrimEmptyIffAllSpace(s.value, IsJsSpace);
    }
  }

  /** The `user` object of a reply: no password, no role. */
  datatype PublicUser = PublicUser(id: int, name: string, email: string, username: string)

  /** The payload the token is signed over. */
  datatype Claims = Claims(userId: int, role: string, email: string, name: string, username: string)

  datatype Session = Session(token: Claims, user: PublicUser)

  /** The reply built from a user row. */
  function SessionOf(u: User): (s: Session)
    ensures s.user.id == u.id && s.user.name == u.name && s.user.email == u.email && s.user.username == u.username
    ensures s.token.userId == u.id && s.token.role == u.role
  {
    Session(Claims(u.id, u.role, u.email, u.name, u.username), PublicUser(u.id, u.name, u.email, u.username))
  }

  function EmailIs(email: string): User -> bool {
    (u: User) => u.email == email
  }

  function UsernameIs(username: string): User -> bool {
    (u: User) => u.username == username
  }

  predicate Taken(users: seq<User>, key: User -> bool) {
    exists k :: 0 <= k < |users| && key(users[k])
  }

  /** Which of the four field checks of `signup` a body passes. */
  predicate UsernameOk(username: Option<string>) { !Blank(username) }
  predicate EmailOk(email: Option<string>) { !Blank(email) && EmailRegex(email.value) }
  predicate PasswordOk(password: Option<string>) { password.Some? && password.value != "" && Utf16Length(password.value) >= 6 }
  predicate NameOk(name: Option<string>) { !Blank(name) }

  /** `signup`. */
  function Signup(db: Db, name: Option<string>, email: Option<string>, password: Option<string>, username: Option<string>,
                  hash: string -> string, defaultRole: string): (out: (Response<Session>, Db))
    ensures var (resp, db') := out;
            && (!UsernameOk(username) ==> resp == Response(400, Note("error", "Username is required")))
            && (UsernameOk(username) && !EmailOk(email) ==>
                  resp == Response(400, Note("error", "Valid email is required")))
            && (UsernameOk(username) && EmailOk(email) && !PasswordOk(password) ==>
                  resp == Response(400, Note("error", "Password must be at least 6 characters long")))
            && (UsernameOk(username) && EmailOk(email) && PasswordOk(password) && !NameOk(name) ==>
                  resp == Response(400, Note("error", "Name is required")))
            && (UsernameOk(username) && EmailOk(email) && PasswordOk(password) && NameOk(name)
                && Taken(db.users, EmailIs(email.value)) ==>
                  resp == Response(409, Note("error", "Email already in use")))
            && (UsernameOk(username) && EmailOk(email) && PasswordOk(password) && NameOk(name)
                && !Taken(db.users, EmailIs(email.value)) && Taken(db.users, UsernameIs(username.value)) ==>
                  resp == Response(409, Note("error", "Username already taken")))
            && (resp.status != 201 ==> db' == db)
            && (resp.status == 201 <==>
                  && UsernameOk(username) && EmailOk(email) && PasswordOk(password) && NameOk(name)
                  && !Taken(db.users, EmailIs(email.value)) && !Taken(db.users, UsernameIs(username.value)))
            && (resp.status == 201 ==>
                  var u := User(db.nextId, name.value, email.value, username.value, hash(password.value), defaultRole);
                  && db' == db.(users := db.users + [u], nextId := db.nextId + 1)
                  && resp.body == Payload(SessionOf(u)))
  {
    if Blank(username) then (Fail(400, "error", "Username is required"), db)
    else if Blank(email) || !EmailRegex(email.value) then (Fail(400, "error", "Valid email is required"), db)
    else if password.None? || password.value == "" || Utf16Length(password.value) < 6 then
      (Fail(400, "error", "Password must be at least 6 characters long"), db)
    else if Blank(name) then (Fail(400, "error", "Name is required"), db)
    else
      TakenIsFound(db.users, EmailIs(email.value));
      TakenIsFound(db.users, UsernameIs(username.value));
      if FirstIndex(db.users, EmailIs(email.value)).Some? then (Fail(409, "error", "Email already in use"), db)
      else if FirstIndex(db.users, UsernameIs(username.value)).Some? then (Fail(409, "error", "Username already taken"), db)
      else
        var u := User(db.nextId, name.value, email.value, username.value, hash(password.value), defaultRole);
        (Response(201, Payload(SessionOf(u))), db.(users := db.users + [u], nextId := db.nextId + 1))
  }

  /** A `findUnique` on a key finds a row exactly when some row has the key. */
  lemma TakenIsFound(users: seq<User>, key: User -> bool)
    ensures Taken(users, key) <==> FirstIndex(users, key).Some?
  {
  }

  /** A taken email is reported before the username is looked at. */
  lemma EmailBeforeUsername(db: Db, name: Option<string>, email: Option<string>, password: Option<string>,
                            username: Option<string>, hash: string -> string, defaultRole: string)
    requires UsernameOk(username) && EmailOk(email) && PasswordOk(password) && NameOk(name)
    requires Taken(db.users, EmailIs(email.value))
    ensures Signup(db, name, email, password, username, hash, defaultRole).0 == Response(409, Note("error", "Email already in use"))
  {
    assert FirstIndex(db.users, EmailIs(email.value)).Some? by {
      var k :| 0 <= k < |db.users| && EmailIs(email.value)(db.users[k]);
    }
  }

  /**
   * The password check counts UTF-16 code units, whitespace included: six
   * units of anything pass, so three characters outside the Basic
   * Multilingual Plane are enough, and for any other text the count is the
   * number of characters.
   */
  lemma PasswordLength(p: string)
    ensures PasswordOk(Some(p)) <==> Utf16Length(p) >= 6
    ensures AllIn(p, InBmp) ==> (PasswordOk(Some(p)) <==> |p| >= 6)
    ensures |p| >= 3 && !InBmp(p[0]) && !InBmp(p[1]) && !InBmp(p[2]) ==> PasswordOk(Some(p))
  {
    if |p| >= 3 && !InBmp(p[0]) && !InBmp(p[1]) && !InBmp(p[2]) {
      assert Utf16Length(p) == 2 + Utf16Length(p[1..]);
      assert Utf16Length(p[1..]) == 2 + Utf16Length(p[2..]) by { assert p[1..][0] == p[1] && p[1..][1..] == p[2..]; }
      assert Utf16Length(p[2..]) == 2 + Utf16Length(p[3..]) by { assert p[2..][0] == p[2] && p[2..][1..] == p[3..]; }
    }
  }

  /** The first user row with the email exists and its stored hash matches the password. */
  predicate Authenticates(users: seq<User>, email: string, password: string, matches: (string, string) -> bool) {
    exists k :: 0 <= k < |users| && users[k].email == email
      && (forall j :: 0 <= j < k ==> users[j].email != email)
      && matches(password, users[k].password)
  }

  /** `Authenticates` is decided by the row a `findUnique` on the email returns. */
  lemma AuthenticatesByLookup(users: seq<User>, email: string, password: string, matches: (string, string) -> bool)
    ensures Authenticates(users, email, password, matches) <==>
              var f := FirstIndex(users, EmailIs(email));
              f.Some? && matches(password, users[f.value].password)
  {
    var f := FirstIndex(users, EmailIs(email));
    if Authenticates(users, email, password, matches) {
      var k :| 0 <= k < |users| && users[k].email == email
        && (forall j :: 0 <= j < k ==> users[j].email != email)
        && matches(password, users[k].password);
      FirstIndexIs(users, EmailIs(email), k);
    }
    if f.Some? && matches(password, users[f.value].password) {
      var k := f.value;
      assert forall j :: 0 <= j < k ==> !EmailIs(email)(users[j]);
      assert users[k].email == email && (forall j :: 0 <= j < k ==> users[j].email != email);
    }
  }

  /** `login`. */
  function Login(db: Db, email: Option<string>, password: Option<string>, matches: (string, string) -> bool): (resp: Response<Session>)
    ensures Blank(email) ==> resp == Response(400, Note("error", "Email is required"))
    ensures !Blank(email) && Blank(password) ==> resp == Response(400, Note("error", "Password is required"))
    ensures resp.status == 200 <==>
              !Blank(email) && !Blank(password) && Authenticates(db.users, email.value, password.value, matches)
    ensures resp.status != 200 ==> resp.status == 400 && resp.body.Note? && resp.body.key == "error"
    ensures resp.status == 200 ==> resp.body.Payload? && resp.body.value.user.email == email.value
    ensures resp.status == 200 ==>
              resp.body == Payload(SessionOf(db.users[FirstIndex(db.users, EmailIs(email.value)).value]))
  {
    if Blank(email) then Fail(400, "error", "Email is required")
    else if Blank(password) then Fail(400, "error", "Password is required")
    else
      AuthenticatesByLookup(db.users, email.value, password.value, matches);
      match FirstIndex(db.users, EmailIs(email.value))
      case None => Fail(400, "error", "Invalid credentials")
      case Some(k) =>
        if !matches(password.value, db.users[k].password) then Fail(400, "error", "Invalid credentials")
        else Response(200, Payload(SessionOf(db.users[k])))
  }

  /** An unknown email and a wrong password get the same answer. */
  lemma SameAnswerForBadCredentials(db: Db, email: string, password: string, matches: (string, string) -> bool)
    requires !Blank(Some(email)) && !Blank(Some(password))
    ensures var k := FirstIndex(db.users, EmailIs(email));
            k.None? || !matches(password, db.users[k.value].password)
            ==> Login(db, Some(email), Some(password), matches) == Response(400, Note("error", "Invalid credentials"))
  {
  }

  /** Signing up and then logging in with the same password succeeds and returns the new user. */
  lemma SignupThenLogin(db: Db, name: string, email: string, password: string, username: string,
                        hash: string -> string, defaultRole: string, matches: (string, string) -> bool)
    requires Signup(db, Some(name), Some(email), Some(password), Some(username), hash, defaultRole).0.status == 201
    requires matches(password, hash(password)) && !AllIn(password, IsJsSpace)
    ensures var db' := Signup(db, Some(name), Some(email), Some(password), Some(username), hash, defaultRole).1;
            var resp := Login(db', Some(email), Some(password), matches);
            && resp.status == 200
            && resp.body.value.user == PublicUser(db.nextId, name, email, username)
  {
    var db' := Signup(db, Some(name), Some(email), Some(password), Some(username), hash, defaultRole).1;
    var u := User(db.nextId, name, email, username, hash(password), defaultRole);
    assert db'.users == db.users + [u];
    assert !Taken(db.users, EmailIs(email));
    FirstIndexAppend(db.users, u, EmailIs(email));
    BlankIsSpace(Some(password));
    assert !Blank(Some(email));
  }

  /**
   * A password of six or more spaces passes `signup`, whose check counts
   * UTF-16 code units and keeps whitespace, but `login` trims it and answers "Password is required"
   * whatever the table holds.
   */
  lemma SpacePasswordLocksOut(db: Db, email: string, password: string, matches: (string, string) -> bool)
    requires |password| >= 6 && AllIn(password, IsJsSpace) && !Blank(Some(email))
    ensures PasswordOk(Some(password))
    ensures Login(db, Some(email), Some(password), matches) == Response(400, Note("error", "Password is required"))
  {
    BlankIsSpace(Some(password));
    assert AllIn(password, InBmp) by {
      forall i | 0 <= i < |password| ensures InBmp(password[i]) {
        assert IsJsSpace(password[i]);
      }
    }
  }
}
