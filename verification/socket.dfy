/**
 * The socket server's bookkeeping: `connectedUsers`, a map from a user id
 * (as a string) to the set of that user's socket ids, and
 * `socketToPostMap`, the post room each socket last joined.
 *
 * A JavaScript `Map` iterates in insertion order and `set` on a present
 * key keeps its place, so `connectedUsers` is a sequence of entries; the
 * `disconnect` loop depends on that order. Rooms, viewer counts and
 * emitted events are not part of this model.
 */
module SocketRegistry {
  import opened Text
  import opened Seqs

  datatype Entry = Entry(user: string, sockets: set<string>)

  datatype Registry = Registry(users: seq<Entry>, postOf: map<string, string>)

  /** The `userId` a `register` event carries: a number or a string. */
  datatype UserKey = Num(n: int) | Str(s: string)

  /** `userId.toString()`; integers print in decimal. */
  function KeyString(k: UserKey): string {
    match k
    case Num(n) => IntToString(n)
    case Str(s) => s
  }

  function EntryFor(user: string): Entry -> bool {
    (e: Entry) => e.user == user
  }

  function Holding(socket: string): Entry -> bool {
    (e: Entry) => socket in e.sockets
  }

  /** What the registry keeps true between events: one entry per user and no empty socket set. */
  predicate WellFormed(users: seq<Entry>) {
    && (forall i, j :: 0 <= i < j < |users| ==> users[i].user != users[j].user)
    && (forall i :: 0 <= i < |users| ==> users[i].sockets != {})
  }

  /** `connectedUsers.get(user)`; `None` is `undefined`. */
  function SocketsOf(users: seq<Entry>, user: string): (r: Option<set<string>>)
    ensures r.None? <==> forall i :: 0 <= i < |users| ==> users[i].user != user
    ensures r.Some? ==> exists i :: 0 <= i < |users| && users[i] == Entry(user, r.value)
  {
    match FirstIndex(users, EntryFor(user))
    case None => None
    case Some(i) => Some(users[i].sockets)
  }

  /** `connectedUsers.set(user, sockets)`: replaces in place, or appends a new key at the end. */
  function SetEntry(users: seq<Entry>, user: string, sockets: set<string>): (r: seq<Entry>)
    ensures FirstIndex(users, EntryFor(user)).None? ==> r == users + [Entry(user, sockets)]
    ensures FirstIndex(users, EntryFor(user)).Some? ==>
              var i := FirstIndex(users, EntryFor(user)).value;
              |r| == |users| && r[i] == Entry(user, sockets) && forall j :: 0 <= j < |r| && j != i ==> r[j] == users[j]
  {
    match FirstIndex(users, EntryFor(user))
    case None => users + [Entry(user, sockets)]
    case Some(i) => users[i := Entry(user, sockets)]
  }

  /** `connectedUsers.get(user) || new Set()`. */
  function HeldBy(users: seq<Entry>, user: string): set<string> {
    match SocketsOf(users, user)
    case None => {}
    case Some(s) => s
  }

  /**
   * The `register` event: the user's socket set becomes the one held before
   * (or an empty one) plus the socket, and every other user keeps theirs.
   */
  function Register(reg: Registry, socket: string, userId: UserKey): (r: Registry)
    ensures r.postOf == reg.postOf
    ensures SocketsOf(r.users, KeyString(userId)) == Some(HeldBy(reg.users, KeyString(userId)) + {socket})
    ensures forall u :: u != KeyString(userId) ==> SocketsOf(r.users, u) == SocketsOf(reg.users, u)
    ensures WellFormed(reg.users) ==> WellFormed(r.users)
  {
    var id := KeyString(userId);
    var sockets := HeldBy(reg.users, id) + {socket};
    RegisterFacts(reg.users, id, sockets);
    SetEntryOthers(reg.users, id, sockets);
    Registry(SetEntry(reg.users, id, sockets), reg.postOf)
  }

  lemma RegisterFacts(users: seq<Entry>, id: string, sockets: set<string>)
    requires sockets != {}
    ensures SocketsOf(SetEntry(users, id, sockets), id) == Some(sockets)
    ensures WellFormed(users) ==> WellFormed(SetEntry(users, id, sockets))
  {
    var r := SetEntry(users, id, sockets);
    match FirstIndex(users, EntryFor(id))
    case None =>
      FirstIndexAppend(users, Entry(id, sockets), EntryFor(id));
    case Some(i) =>
      FirstIndexIs(r, EntryFor(id), i);
  }

  /** Setting one user's entry leaves what every other user's lookup finds. */
  lemma SetEntryOthers(users: seq<Entry>, id: string, sockets: set<string>)
    ensures forall u :: u != id ==> SocketsOf(SetEntry(users, id, sockets), u) == SocketsOf(users, u)
  {
    var r := SetEntry(users, id, sockets);
    forall u | u != id
      ensures SocketsOf(r, u) == SocketsOf(users, u)
    {
      assert forall k :: 0 <= k < |users| ==> (r[k].user == u <==> users[k].user == u);
      match FirstIndex(users, EntryFor(u))
      case None =>
      case Some(j) =>
        FirstIndexIs(r, EntryFor(u), j);
    }
  }

  /** A number and the string it prints as name the same user. */
  lemma NumberAndStringShare(reg: Registry, socket: string, n: int)
    ensures Register(reg, socket, Num(n)) == Register(reg, socket, Str(IntToString(n)))
  {
  }

  /** Registering the same socket again changes nothing. */
  lemma RegisterIdempotent(reg: Registry, socket: string, userId: UserKey)
    ensures Register(Register(reg, socket, userId), socket, userId) == Register(reg, socket, userId)
  {
    var id := KeyString(userId);
    var r1 := Register(reg, socket, userId);
    var s1 := SocketsOf(r1.users, id).value;
    var i := FirstIndex(r1.users, EntryFor(id)).value;
    assert s1 + {socket} == s1;
    assert r1.users[i := Entry(id, s1)] == r1.users;
  }

  /** `join_post`: the socket's post record is overwritten. */
  function JoinPost(reg: Registry, socket: string, postId: string): (r: Registry)
    ensures r.users == reg.users
    ensures socket in r.postOf && r.postOf[socket] == postId
    ensures forall s :: s in reg.postOf && s != socket ==> s in r.postOf && r.postOf[s] == reg.postOf[s]
    ensures r.postOf.Keys == reg.postOf.Keys + {socket}
  {
    reg.(postOf := reg.postOf[socket := postId])
  }

  /** `leave_post`: the socket's post record goes, whatever `postId` names. */
  function LeavePost(reg: Registry, socket: string, postId: string): (r: Registry)
    ensures r.users == reg.users
    ensures r.postOf.Keys == reg.postOf.Keys - {socket}
    ensures forall s :: s in r.postOf ==> r.postOf[s] == reg.postOf[s]
  {
    reg.(postOf := reg.postOf - {socket})
  }

  /** Leaving after a join forgets the join: the records are as if the socket had only left. */
  lemma JoinThenLeave(reg: Registry, socket: string, joined: string, left: string)
    ensures LeavePost(JoinPost(reg, socket, joined), socket, left) == LeavePost(reg, socket, left)
  {
  }

  /** Of two joins by one socket the later one counts. */
  lemma LastJoinWins(reg: Registry, socket: string, first: string, second: string)
    ensures JoinPost(JoinPost(reg, socket, first), socket, second) == JoinPost(reg, socket, second)
  {
  }

  /** `postId` names a different post than the one left: the record still goes. */
  lemma LeaveIgnoresPostId(reg: Registry, socket: string, a: string, b: string)
    ensures LeavePost(reg, socket, a) == LeavePost(reg, socket, b)
  {
  }

  /**
   * The `disconnect` loop as a reference: the first entry holding the
   * socket loses it, and is deleted if that empties it.
   */
  function Detach(users: seq<Entry>, socket: string): (r: seq<Entry>)
  {
    match FirstIndex(users, Holding(socket))
    case None => users
    case Some(i) =>
      var rest := users[i].sockets - {socket};
      if rest == {} then users[..i] + users[i + 1..] else users[i := Entry(users[i].user, rest)]
  }

  /** The loop of the `disconnect` handler over `connectedUsers.entries()`. */
  method DetachLoop(users: seq<Entry>, socket: string) returns (r: seq<Entry>)
    ensures r == Detach(users, socket)
  {
    var i := 0;
    while i < |users|
      invariant 0 <= i <= |users|
      invariant forall k :: 0 <= k < i ==> socket !in users[k].sockets
    {
      if socket in users[i].sockets {
        var rest := users[i].sockets - {socket};
        FirstIndexIs(users, Holding(socket), i);
        if |rest| == 0 {
          r := users[..i] + users[i + 1..];
        } else {
          r := users[i := Entry(users[i].user, rest)];
        }
        return;
      }
      i := i + 1;
    }
    r := users;
  }

  /** The `disconnect` event. A post record of `""` is falsy and is left in place. */
  function Disconnect(reg: Registry, socket: string): (r: Registry)
    ensures r.users == Detach(reg.users, socket)
    ensures socket in reg.postOf && reg.postOf[socket] != "" ==> r.postOf == reg.postOf - {socket}
    ensures socket !in reg.postOf || reg.postOf[socket] == "" ==> r.postOf == reg.postOf
  {
    var postOf' := if socket in reg.postOf && reg.postOf[socket] != "" then reg.postOf - {socket} else reg.postOf;
    Registry(Detach(reg.users, socket), postOf')
  }

  /** Only the first entry holding the socket changes; every entry before it and after it stays. */
  lemma DetachTouchesFirstHolder(users: seq<Entry>, socket: string, i: nat)
    requires i < |users| && socket in users[i].sockets
    requires forall k :: 0 <= k < i ==> socket !in users[k].sockets
    ensures var r := Detach(users, socket);
            && r[..i] == users[..i]
            && (users[i].sockets == {socket} ==> r[i..] == users[i + 1..])
            && (users[i].sockets != {socket} ==>
                  r[i] == Entry(users[i].user, users[i].sockets - {socket}) && r[i + 1..] == users[i + 1..])
  {
    FirstIndexIs(users, Holding(socket), i);
    var rest := users[i].sockets - {socket};
    assert rest == {} <==> users[i].sockets == {socket};
  }

  /** Disconnecting keeps the registry well formed: keys stay distinct and an emptied entry is deleted. */
  lemma {:induction false} DetachKeepsWellFormed(users: seq<Entry>, socket: string)
    requires WellFormed(users)
    ensures WellFormed(Detach(users, socket))
  {
    var r := Detach(users, socket);
    match FirstIndex(users, Holding(socket))
    case None =>
    case Some(i) =>
      var rest := users[i].sockets - {socket};
      if rest == {} {
        assert forall k :: 0 <= k < |r| ==> r[k] == if k < i then users[k] else users[k + 1];
      }
  }

  /** The loop stops at the first match: a later entry holding the same socket keeps it. */
  lemma DetachStopsAtFirst(users: seq<Entry>, socket: string, i: nat, j: nat)
    requires i < j < |users| && socket in users[i].sockets && socket in users[j].sockets
    requires forall k :: 0 <= k < i ==> socket !in users[k].sockets
    ensures socket in Detach(users, socket)[j - (if users[i].sockets == {socket} then 1 else 0)].sockets
  {
    DetachTouchesFirstHolder(users, socket, i);
    var r := Detach(users, socket);
    if users[i].sockets == {socket} {
      assert r[j - 1] == r[i..][j - 1 - i] == users[i + 1..][j - 1 - i];
    } else {
      assert r[j] == r[i + 1..][j - i - 1] == users[i + 1..][j - i - 1];
    }
  }
}
