/** The relay's in-memory state: the registry of joined connections
    (`connectedUsers`, socket id to `{username, roomId}`) and the room directory
    (`rooms`, room id to the set of socket ids in it), with the invariants the
    handlers are meant to keep between them.
 */
module Presence {
  import opened Members

  /** Room identifiers are caller-supplied strings, compared exactly. */
  type RoomId = string

  /** Display names, taken as given: neither validated nor unique. */
  type Name = string

  /** A registry record, as `join` stores it. */
  datatype User = User(username: Name, roomId: RoomId)

  /** Both maps together. Each member sequence is an insertion-ordered set
      (see module Members). */
  datatype State = State(users: map<Id, User>, rooms: map<RoomId, seq<Id>>)

  /** The state at process start: both maps empty. */
  const Empty := State(map[], map[])

  /** The members of `roomId`, or none if the directory has no such room. */
  function MembersOf(s: State, roomId: RoomId): seq<Id> {
    if roomId in s.rooms then s.rooms[roomId] else []
  }

  /** Rooms exist only while someone is in them. */
  ghost predicate NoEmptyRooms(s: State) {
    forall r :: r in s.rooms ==> s.rooms[r] != []
  }

  /** Every member sequence really is a set. */
  ghost predicate DuplicateFree(s: State) {
    forall r :: r in s.rooms ==> NoDup(s.rooms[r])
  }

  /** Registry to directory: each user's recorded room exists and lists the user. */
  ghost predicate UsersInTheirRooms(s: State) {
    forall p :: p in s.users ==> s.users[p].roomId in s.rooms && p in s.rooms[s.users[p].roomId]
  }

  /** Directory to registry: each listed member is registered, under that room. */
  ghost predicate MembersRegistered(s: State) {
    forall r, p :: r in s.rooms && p in s.rooms[r] ==> p in s.users && s.users[p].roomId == r
  }

  /** The two maps agree in both directions and hold no empty rooms. */
  ghost predicate Valid(s: State) {
    && NoEmptyRooms(s)
    && DuplicateFree(s)
    && UsersInTheirRooms(s)
    && MembersRegistered(s)
  }

  /** The start state satisfies the invariant. */
  lemma EmptyIsValid()
    ensures Valid(Empty)
  {
  }

  /** In a valid state, the ids listed in rooms are exactly the registered ids. */
  lemma ValidMembersAreUsers(s: State, p: Id)
    requires Valid(s)
    ensures p in s.users <==> exists r :: r in s.rooms && p in s.rooms[r]
  {
  }
}
