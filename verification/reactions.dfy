/**
 * The post- and comment-reaction handlers. Both controllers have the same
 * shape and differ only in which column names the target and in their
 * messages, so they are modelled once over a `Side`.
 *
 * A reaction row targets a post when `commentId` is null and a comment
 * when `postId` is null. The `add` handler is a toggle: the first reaction
 * by a user on a target is created, the same type again removes it, a
 * different type switches it in place.
 */
module Reactions {
  import opened Text
  import opened Seqs
  import opened Store
  import opened Validators

  datatype Side = PostSide | CommentSide

  datatype Target = Target(side: Side, id: int)

  /** The row belongs to this target: the target's column holds its id and the other column is null. */
  predicate On(r: Reaction, t: Target) {
    match t.side
    case PostSide => r.postId == Some(t.id) && r.commentId == None
    case CommentSide => r.commentId == Some(t.id) && r.postId == None
  }

  /** The `where` clause of the handlers: this user's reaction on this target. */
  predicate Mine(r: Reaction, user: int, t: Target) {
    r.userId == user && On(r, t)
  }

  function MineOf(user: int, t: Target): Reaction -> bool {
    (r: Reaction) => Mine(r, user, t)
  }

  /** The `where: {id}` of a single-row delete. */
  function WithId(id: int): Reaction -> bool {
    (r: Reaction) => r.id == id
  }

  function OfKind(k: string): Reaction -> bool {
    (r: Reaction) => r.kind == k
  }

  /** Two rows by the same user on the same target. */
  predicate Clash(a: Reaction, b: Reaction) {
    a.userId == b.userId && a.postId == b.postId && a.commentId == b.commentId
  }

  /** The table holds at most one reaction per user and target. */
  predicate AtMostOne(rs: seq<Reaction>) {
    forall i, j :: 0 <= i < j < |rs| ==> !Clash(rs[i], rs[j])
  }

  predicate UniqueIds(rs: seq<Reaction>) {
    forall i, j :: 0 <= i < j < |rs| ==> rs[i].id != rs[j].id
  }

  predicate IdsBelow(rs: seq<Reaction>, bound: int) {
    forall i :: 0 <= i < |rs| ==> rs[i].id < bound
  }

  /** What the database guarantees of the reaction table between requests. */
  predicate Consistent(db: Db) {
    AtMostOne(db.reactions) && UniqueIds(db.reactions) && IdsBelow(db.reactions, db.nextId)
  }

  /** The 400 message of the add and remove handlers. */
  function BadRequest(side: Side): string {
    match side
    case PostSide => "Geçersiz kullanıcı veya gönderi bilgisi."
    case CommentSide => "Geçersiz kullanıcı veya yorum bilgisi."
  }

  /** The 400 message of the listing handler. */
  function BadId(side: Side): string {
    match side
    case PostSide => "Geçersiz gönderi ID."
    case CommentSide => "Geçersiz yorum ID."
  }

  /** `findFirst` for this user's reaction on the target. */
  function FindMine(rs: seq<Reaction>, user: int, t: Target): Option<nat> {
    FirstIndex(rs, MineOf(user, t))
  }

  /** The type of the user's reaction on the target, if there is one. */
  function Current(rs: seq<Reaction>, user: int, t: Target): Option<string> {
    match FindMine(rs, user, t)
    case None => None
    case Some(i) => Some(rs[i].kind)
  }

  /** The row a create would insert. */
  function NewRow(id: int, user: int, t: Target, kind: string): (r: Reaction)
    ensures Mine(r, user, t) && r.kind == kind && r.id == id
  {
    match t.side
    case PostSide => Reaction(id, user, Some(t.id), None, kind)
    case CommentSide => Reaction(id, user, None, Some(t.id), kind)
  }

  /** The body of the add handler's replies. */
  datatype Toggled = Toggled(message: string, reaction: Option<Reaction>)

  /**
   * `addPostReaction` / `addCommentReaction`. `pathId` is `parseInt` of the
   * path parameter, `None` standing for NaN.
   */
  function Add(db: Db, user: Option<int>, side: Side, pathId: Option<int>, kind: string): (out: (Response<Toggled>, Db))
    ensures var (resp, db') := out;
            && (resp.status == 400 <==> user.None? || user.value == 0 || pathId.None?)
            && (resp.status == 400 ==> db' == db && resp.body == Note("message", BadRequest(side)))
            && (resp.status != 400 ==>
                  var t := Target(side, pathId.value);
                  && db'.users == db.users && db'.posts == db.posts && db'.likes == db.likes
                  && db'.comments == db.comments && db'.notifications == db.notifications
                  && (resp.status == 201 <==> Current(db.reactions, user.value, t).None?)
                  && (resp.status == 201 || resp.status == 200))
    ensures var (resp, db') := out;
            !(user.None? || user.value == 0 || pathId.None?) ==>
              var u, t, rs := user.value, Target(side, pathId.value), db.reactions;
              && (FindMine(rs, u, t).Some? && rs[FindMine(rs, u, t).value].kind == kind ==>
                    var i := FindMine(rs, u, t).value;
                    && resp == Response(200, Payload(Toggled("Tepki kaldırıldı.", None)))
                    && db'.reactions == Without(rs, WithId(rs[i].id)) && db'.nextId == db.nextId)
              && (FindMine(rs, u, t).Some? && rs[FindMine(rs, u, t).value].kind != kind ==>
                    var i := FindMine(rs, u, t).value;
                    && resp == Response(200, Payload(Toggled("Tepki güncellendi.", Some(rs[i].(kind := kind)))))
                    && db'.reactions == rs[i := rs[i].(kind := kind)] && db'.nextId == db.nextId)
              && (FindMine(rs, u, t).None? ==>
                    && resp == Response(201, Payload(Toggled("Tepki eklendi.", Some(NewRow(db.nextId, u, t, kind)))))
                    && db'.reactions == rs + [NewRow(db.nextId, u, t, kind)] && db'.nextId == db.nextId + 1)
  {
    if user.None? || user.value == 0 || pathId.None? then
      (Fail(400, "message", BadRequest(side)), db)
    else
      var u, t := user.value, Target(side, pathId.value);
      var rs := db.reactions;
      match FindMine(rs, u, t)
      case Some(i) =>
        if rs[i].kind == kind then
          var gone := rs[i].id;
          (Response(200, Payload(Toggled("Tepki kaldırıldı.", None))), db.(reactions := Without(rs, WithId(gone))))
        else
          var updated := rs[i].(kind := kind);
          (Response(200, Payload(Toggled("Tepki güncellendi.", Some(updated)))), db.(reactions := rs[i := updated]))
      case None =>
        var created := NewRow(db.nextId, u, t, kind);
        (Response(201, Payload(Toggled("Tepki eklendi.", Some(created)))),
         db.(reactions := rs + [created], nextId := db.nextId + 1))
  }

  // ----- the three table changes of `add`, one lemma each -----

  /** Deleting the user's one reaction by its id leaves none on the target. */
  lemma OffClears(rs: seq<Reaction>, u: int, t: Target, i: nat)
    requires AtMostOne(rs) && i < |rs| && Mine(rs[i], u, t)
    ensures Current(Without(rs, WithId(rs[i].id)), u, t).None?
  {
    var rs' := Without(rs, WithId(rs[i].id));
    forall k | 0 <= k < |rs'|
      ensures !MineOf(u, t)(rs'[k])
    {
      WithoutMembers(rs, WithId(rs[i].id), rs'[k]);
      var j :| 0 <= j < |rs| && rs[j] == rs'[k];
      assert j != i;
      if i < j { assert !Clash(rs[i], rs[j]); } else { assert !Clash(rs[j], rs[i]); }
    }
  }

  /** Changing the type of the user's first reaction in place makes it the current one. */
  lemma SwitchSets(rs: seq<Reaction>, u: int, t: Target, i: nat, kind: string)
    requires FindMine(rs, u, t) == Some(i)
    ensures Current(rs[i := rs[i].(kind := kind)], u, t) == Some(kind)
  {
    var rs' := rs[i := rs[i].(kind := kind)];
    assert forall k :: 0 <= k < i ==> rs'[k] == rs[k];
    FirstIndexIs(rs', MineOf(u, t), i);
  }

  /** Appending the user's first reaction on the target makes it the current one. */
  lemma CreateSets(rs: seq<Reaction>, u: int, t: Target, row: Reaction)
    requires FindMine(rs, u, t).None? && Mine(row, u, t)
    ensures Current(rs + [row], u, t) == Some(row.kind)
  {
    FirstIndexAppend(rs, row, MineOf(u, t));
  }

  /**
   * The toggle: after a successful add, the user's reaction on the target
   * is gone if it had the same type, and has the requested type otherwise.
   */
  lemma AddToggles(db: Db, user: int, side: Side, id: int, kind: string)
    requires Consistent(db) && user != 0
    ensures var db' := Add(db, Some(user), side, Some(id), kind).1;
            var t := Target(side, id);
            Current(db'.reactions, user, t) ==
              if Current(db.reactions, user, t) == Some(kind) then None else Some(kind)
  {
    var t := Target(side, id);
    var rs := db.reactions;
    match FindMine(rs, user, t)
    case Some(i) =>
      if rs[i].kind == kind {
        OffClears(rs, user, t, i);
      } else {
        SwitchSets(rs, user, t, i, kind);
      }
    case None =>
      CreateSets(rs, user, t, NewRow(db.nextId, user, t, kind));
  }

  /** A successful add touches no other user's or target's reaction. */
  lemma AddLeavesOthers(db: Db, user: int, side: Side, id: int, kind: string, r: Reaction)
    requires Consistent(db) && user != 0
    requires !Mine(r, user, Target(side, id))
    ensures var db' := Add(db, Some(user), side, Some(id), kind).1;
            r in db'.reactions <==> r in db.reactions
  {
    var t := Target(side, id);
    var rs := db.reactions;
    var rs' := Add(db, Some(user), side, Some(id), kind).1.reactions;
    match FindMine(rs, user, t)
    case Some(i) =>
      if rs[i].kind == kind {
        OffKeepsOthers(rs, user, t, i, r);
      } else {
        SwitchKeepsOthers(rs, user, t, i, kind, r);
      }
    case None =>
  }

  lemma OffKeepsOthers(rs: seq<Reaction>, u: int, t: Target, i: nat, r: Reaction)
    requires UniqueIds(rs) && i < |rs| && Mine(rs[i], u, t) && !Mine(r, u, t)
    ensures r in Without(rs, WithId(rs[i].id)) <==> r in rs
  {
    WithoutMembers(rs, WithId(rs[i].id), r);
    if r in rs {
      var j :| 0 <= j < |rs| && rs[j] == r;
      assert j != i;
      if i < j { assert rs[i].id != rs[j].id; } else { assert rs[j].id != rs[i].id; }
    }
  }

  lemma SwitchKeepsOthers(rs: seq<Reaction>, u: int, t: Target, i: nat, kind: string, r: Reaction)
    requires i < |rs| && Mine(rs[i], u, t) && !Mine(r, u, t)
    ensures r in rs[i := rs[i].(kind := kind)] <==> r in rs
  {
    var rs' := rs[i := rs[i].(kind := kind)];
    if r in rs {
      var j :| 0 <= j < |rs| && rs[j] == r;
      assert j != i && rs'[j] == r;
    }
    if r in rs' {
      var j :| 0 <= j < |rs'| && rs'[j] == r;
      assert j != i && rs[j] == r;
    }
  }

  /** The store stays consistent across any add. */
  lemma AddKeepsConsistent(db: Db, user: Option<int>, side: Side, pathId: Option<int>, kind: string)
    requires Consistent(db)
    ensures Consistent(Add(db, user, side, pathId, kind).1)
  {
    if user.Some? && user.value != 0 && pathId.Some? {
      var u, t := user.value, Target(side, pathId.value);
      var rs := db.reactions;
      match FindMine(rs, u, t)
      case Some(i) =>
        if rs[i].kind == kind {
          SubseqPairs(Without(rs, WithId(rs[i].id)), rs);
          SubseqBelow(Without(rs, WithId(rs[i].id)), rs, db.nextId);
        } else {
          SwitchConsistent(rs, i, kind, db.nextId);
        }
      case None =>
        CreateConsistent(rs, u, t, NewRow(db.nextId, u, t, kind), db.nextId);
    }
  }

  lemma SwitchConsistent(rs: seq<Reaction>, i: nat, kind: string, bound: int)
    requires i < |rs| && AtMostOne(rs) && UniqueIds(rs) && IdsBelow(rs, bound)
    ensures var rs' := rs[i := rs[i].(kind := kind)];
            AtMostOne(rs') && UniqueIds(rs') && IdsBelow(rs', bound)
  {
    var rs' := rs[i := rs[i].(kind := kind)];
    assert forall k :: 0 <= k < |rs| ==> Clash(rs'[k], rs[k]) && rs'[k].id == rs[k].id;
    forall a, b | 0 <= a < b < |rs'|
      ensures !Clash(rs'[a], rs'[b])
    {
      assert !Clash(rs[a], rs[b]);
    }
  }

  lemma CreateConsistent(rs: seq<Reaction>, u: int, t: Target, row: Reaction, bound: int)
    requires AtMostOne(rs) && UniqueIds(rs) && IdsBelow(rs, bound)
    requires FindMine(rs, u, t).None? && Mine(row, u, t) && row.id == bound
    ensures AtMostOne(rs + [row]) && UniqueIds(rs + [row]) && IdsBelow(rs + [row], bound + 1)
  {
    var rs' := rs + [row];
    forall k | 0 <= k < |rs|
      ensures !Clash(rs[k], row) && rs[k].id != row.id
    {
      assert !MineOf(u, t)(rs[k]);
    }
    assert forall k :: 0 <= k < |rs| ==> rs'[k] == rs[k];
  }

  lemma {:induction false} SubseqBelow(a: seq<Reaction>, b: seq<Reaction>, bound: int)
    requires IsSubseq(a, b) && IdsBelow(b, bound)
    ensures IdsBelow(a, bound)
  {
    forall k | 0 <= k < |a|
      ensures a[k].id < bound
    {
      SubseqIndex(a, b, k);
    }
  }

  /** Consistency is inherited by any subsequence. */
  lemma {:induction false} SubseqPairs(a: seq<Reaction>, b: seq<Reaction>)
    requires IsSubseq(a, b) && AtMostOne(b) && UniqueIds(b)
    ensures AtMostOne(a) && UniqueIds(a)
    decreases |b|
  {
    if |a| > 0 && |b| > 0 {
      var b0 := b[..|b| - 1];
      assert AtMostOne(b0) && UniqueIds(b0);
      if a[|a| - 1] == b[|b| - 1] {
        var a0 := a[..|a| - 1];
        SubseqPairs(a0, b0);
        forall k | 0 <= k < |a0|
          ensures !Clash(a0[k], a[|a| - 1]) && a0[k].id != a[|a| - 1].id
        {
          SubseqIndex(a0, b0, k);
          var j :| 0 <= j < |b0| && b0[j] == a0[k];
          assert b[j] == a0[k];
        }
        assert forall k :: 0 <= k < |a0| ==> a[k] == a0[k];
      } else {
        SubseqPairs(a, b0);
      }
    }
  }

  lemma SubseqIndex<T>(a: seq<T>, b: seq<T>, k: int)
    requires IsSubseq(a, b) && 0 <= k < |a|
    ensures exists j :: 0 <= j < |b| && b[j] == a[k]
  {
    SubseqMember(a, b, k);
  }

  /** Reacting twice with the same type leaves the table as it was before the first. */
  lemma AddTwiceRestores(db: Db, user: int, side: Side, id: int, kind: string)
    requires Consistent(db) && user != 0
    requires Current(db.reactions, user, Target(side, id)).None?
    ensures var db1 := Add(db, Some(user), side, Some(id), kind).1;
            var db2 := Add(db1, Some(user), side, Some(id), kind).1;
            db2.reactions == db.reactions
  {
    var t := Target(side, id);
    var rs := db.reactions;
    var created := NewRow(db.nextId, user, t, kind);
    var db1 := Add(db, Some(user), side, Some(id), kind).1;
    assert db1.reactions == rs + [created];
    FirstIndexAppend(rs, created, MineOf(user, t));
    assert FindMine(db1.reactions, user, t) == Some(|rs|);
    var db2 := Add(db1, Some(user), side, Some(id), kind).1;
    assert db2.reactions == Without(rs + [created], WithId(db.nextId));
    assert forall k :: 0 <= k < |rs| ==> rs[k].id != db.nextId;
    WithoutNothing(rs, WithId(db.nextId));
    WithoutSnoc(rs, created, WithId(db.nextId));
  }

  /** `removePostReaction` / `removeCommentReaction`: a `deleteMany` of the user's reactions on the target. */
  function Remove(db: Db, user: Option<int>, side: Side, pathId: Option<int>): (out: (Response<()>, Db))
    ensures var (resp, db') := out;
            && (resp.status == 400 <==> user.None? || user.value == 0 || pathId.None?)
            && (resp.status == 400 ==> db' == db && resp.body == Note("message", BadRequest(side)))
            && (resp.status != 400 ==>
                  var t := Target(side, pathId.value);
                  && (resp.status == 404 <==> Current(db.reactions, user.value, t).None?)
                  && (resp.status == 404 ==> db' == db && resp.body == Note("message", "Tepki bulunamadı."))
                  && (resp.status != 404 ==> resp == Response(200, Note("message", "Tepki silindi.")))
                  && Current(db'.reactions, user.value, t).None?
                  && (forall r :: !Mine(r, user.value, t) ==> (r in db'.reactions <==> r in db.reactions)))
  {
    if user.None? || user.value == 0 || pathId.None? then
      (Fail(400, "message", BadRequest(side)), db)
    else
      var u, t := user.value, Target(side, pathId.value);
      var rs := db.reactions;
      var kept := Without(rs, MineOf(u, t));
      WithoutCount(rs, MineOf(u, t));
      RemovedNone(rs, u, t);
      forall r | true
        ensures r in kept <==> r in rs && !Mine(r, u, t)
      {
        WithoutMembers(rs, MineOf(u, t), r);
      }
      var count := |rs| - |kept|;
      if count == 0 then
        (Fail(404, "message", "Tepki bulunamadı."), db)
      else
        (Fail(200, "message", "Tepki silindi."), db.(reactions := kept))
  }

  /** The deleted count is zero exactly when the user had no reaction on the target. */
  lemma RemovedNone(rs: seq<Reaction>, u: int, t: Target)
    ensures Count(rs, MineOf(u, t)) == 0 <==> Current(rs, u, t).None?
    ensures Count(rs, MineOf(u, t)) == 0 ==> Without(rs, MineOf(u, t)) == rs
  {
    CountZero(rs, MineOf(u, t));
    if Count(rs, MineOf(u, t)) == 0 {
      WithoutNothing(rs, MineOf(u, t));
    }
  }

  /** One entry of the listing: a type, how many reactions have it, and whether one is the caller's. */
  datatype Group = Group(kind: string, count: nat, mine: bool)

  datatype Listing = Listing(groups: seq<Group>, userReaction: Option<string>)

  /** The reactions on the target (the `where` of the `groupBy`). */
  function OnTarget(rs: seq<Reaction>, t: Target): seq<Reaction> {
    Where(rs, (r: Reaction) => On(r, t))
  }

  function KindsOf(rs: seq<Reaction>): (ks: seq<string>)
    ensures |ks| == |rs| && forall i :: 0 <= i < |rs| ==> ks[i] == rs[i].kind
  {
    seq(|rs|, i requires 0 <= i < |rs| => rs[i].kind)
  }

  function CountKind(rs: seq<Reaction>, k: string): nat {
    Count(rs, OfKind(k))
  }

  /**
   * The `groupBy` on the target's reactions: one group per type present,
   * counted, and marked when it is the caller's type `c`.
   */
  function Groups(on: seq<Reaction>, c: Option<string>): (gs: seq<Group>)
    ensures forall i :: 0 <= i < |gs| ==> gs[i].count == CountKind(on, gs[i].kind) > 0
    ensures forall i, j :: 0 <= i < j < |gs| ==> gs[i].kind != gs[j].kind
    ensures forall r :: r in on ==> exists i :: 0 <= i < |gs| && gs[i].kind == r.kind
    ensures forall i :: 0 <= i < |gs| ==> (gs[i].mine <==> c == Some(gs[i].kind))
  {
    var kinds := Distinct(KindsOf(on));
    var gs := GroupsOf(kinds, on, c);
    forall i | 0 <= i < |gs|
      ensures gs[i].count > 0
    {
      KindPresent(on, kinds[i]);
    }
    forall r | r in on
      ensures exists i :: 0 <= i < |gs| && gs[i].kind == r.kind
    {
      KindListed(on, r);
      var i :| 0 <= i < |kinds| && kinds[i] == r.kind;
      assert gs[i].kind == r.kind;
    }
    gs
  }

  /**
   * `getPostReactions` / `getCommentReactions`. The groups come in the order
   * each type first appears; the database does not promise any order.
   */
  function Get(db: Db, user: Option<int>, side: Side, pathId: Option<int>): (resp: Response<Listing>)
    ensures resp.status == 400 <==> pathId.None?
    ensures resp.status == 400 ==> resp.body == Note("message", BadId(side))
    ensures resp.status != 400 ==> resp.status == 200 && resp.body.Payload?
    ensures resp.status != 400 ==>
              var on := OnTarget(db.reactions, Target(side, pathId.value));
              var gs := resp.body.value.groups;
              && (forall i :: 0 <= i < |gs| ==> gs[i].count == CountKind(on, gs[i].kind) > 0)
              && (forall i, j :: 0 <= i < j < |gs| ==> gs[i].kind != gs[j].kind)
              && (forall r :: r in on ==> exists i :: 0 <= i < |gs| && gs[i].kind == r.kind)
    ensures resp.status != 400 && (user.None? || user.value == 0) ==>
              var gs := resp.body.value.groups;
              resp.body.value.userReaction.None? && forall i :: 0 <= i < |gs| ==> !gs[i].mine
    ensures resp.status != 400 && user.Some? && user.value != 0 ==>
              var c := Current(db.reactions, user.value, Target(side, pathId.value));
              var gs := resp.body.value.groups;
              && resp.body.value.userReaction == (if c == Some("") then None else c)
              && forall i :: 0 <= i < |gs| ==> (gs[i].mine <==> c == Some(gs[i].kind))
  {
    if pathId.None? then
      Fail(400, "message", BadId(side))
    else
      var t := Target(side, pathId.value);
      var c := if user.Some? && user.value != 0 then Current(db.reactions, user.value, t) else None;
      Response(200, Payload(Listing(Groups(OnTarget(db.reactions, t), c), if c.Some? && c.value != "" then c else None)))
  }

  /** One group per listed type, in the order given. */
  function GroupsOf(kinds: seq<string>, on: seq<Reaction>, c: Option<string>): (gs: seq<Group>)
    ensures |gs| == |kinds|
    ensures forall i :: 0 <= i < |gs| ==> gs[i] == Group(kinds[i], CountKind(on, kinds[i]), c == Some(kinds[i]))
  {
    seq(|kinds|, i requires 0 <= i < |kinds| => Group(kinds[i], CountKind(on, kinds[i]), c == Some(kinds[i])))
  }

  lemma KindPresent(on: seq<Reaction>, k: string)
    requires k in KindsOf(on)
    ensures CountKind(on, k) > 0 && exists r :: r in on && r.kind == k
  {
    var j :| 0 <= j < |on| && KindsOf(on)[j] == k;
    assert on[j] in on;
    CountPositive(on, on[j]);
  }

  lemma KindListed(on: seq<Reaction>, r: Reaction)
    requires r in on
    ensures r.kind in KindsOf(on)
  {
    var j :| 0 <= j < |on| && on[j] == r;
    assert KindsOf(on)[j] == r.kind;
  }

  lemma CountPositive(rs: seq<Reaction>, r: Reaction)
    requires r in rs
    ensures CountKind(rs, r.kind) > 0
  {
    CountZero(rs, OfKind(r.kind));
    var j :| 0 <= j < |rs| && rs[j] == r;
    assert OfKind(r.kind)(rs[j]);
  }

  /** With at most one reaction per user and target, at most one group is marked as the caller's. */
  lemma AtMostOneMine(db: Db, user: Option<int>, side: Side, id: int)
    ensures var resp := Get(db, user, side, Some(id));
            var gs := resp.body.value.groups;
            forall i, j :: 0 <= i < j < |gs| ==> !(gs[i].mine && gs[j].mine)
  {
  }

  // ----- the routes: authentication, then the validator, then the handler -----

  /** `POST /api/post-reactions/:postId` and `POST /api/comment-reactions/:commentId`. */
  function AddRoute(db: Db, user: Option<int>, side: Side, pathId: Option<int>, body: Field): (out: (Response<Toggled>, Db))
    ensures var v := if side == PostSide then ValidatePostReaction(body) else ValidateCommentReaction(body);
            v.Halt? ==> out.1 == db && out.0.status == 400
    ensures body.JStr? && out.0.status != 400 ==> out == Add(db, user, side, pathId, body.s)
  {
    var v := if side == PostSide then ValidatePostReaction(body) else ValidateCommentReaction(body);
    match v
    case Halt(status, key, text) => (Fail(status, key, text), db)
    case Next => Add(db, user, side, pathId, body.s)
  }

  function Allowed(side: Side): seq<string> {
    if side == PostSide then PostReactions else CommentReactions
  }

  /** Every reaction on a side's targets has one of that side's types. */
  predicate TypesAllowed(rs: seq<Reaction>) {
    forall i :: 0 <= i < |rs| ==>
      (rs[i].commentId == None ==> rs[i].kind in PostReactions) &&
      (rs[i].postId == None ==> rs[i].kind in CommentReactions)
  }

  /** Through the routes, only the validator's types ever reach the table. */
  lemma RouteKeepsTypes(db: Db, user: Option<int>, side: Side, pathId: Option<int>, body: Field)
    requires TypesAllowed(db.reactions)
    ensures TypesAllowed(AddRoute(db, user, side, pathId, body).1.reactions)
  {
    var v := if side == PostSide then ValidatePostReaction(body) else ValidateCommentReaction(body);
    if v.Next? && user.Some? && user.value != 0 && pathId.Some? {
      var rs := db.reactions;
      var rs' := AddRoute(db, user, side, pathId, body).1.reactions;
      var t := Target(side, pathId.value);
      match FindMine(rs, user.value, t)
      case Some(i) =>
        if rs[i].kind == body.s {
          forall k | 0 <= k < |rs'|
            ensures (rs'[k].commentId == None ==> rs'[k].kind in PostReactions)
            ensures (rs'[k].postId == None ==> rs'[k].kind in CommentReactions)
          {
            WithoutMembers(rs, WithId(rs[i].id), rs'[k]);
          }
        } else {
          assert forall k :: 0 <= k < |rs| && k != i ==> rs'[k] == rs[k];
        }
      case None =>
    }
  }
}
