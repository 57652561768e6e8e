/** Runs of the handlers from the empty state, one per behaviour the relay is
    expected to show. Connections, names and rooms are arbitrary; only their
    distinctness matters. Each run is proved in two parts: the states it passes
    through, then the last event applied to the explicit state.
 */
module Scenarios {
  import opened Members
  import opened Presence
  import opened Events
  import opened Directory
  import opened Router
  import opened Invariants

  /** `a` joins room `x` of the empty state. */
  lemma OneJoin(a: Id, na: Name, x: RoomId)
    ensures OnJoin(Empty, a, na, x).state == State(map[a := User(na, x)], map[x := [a]])
  {
  }

  /** `a` then `b` join room `x`. */
  lemma TwoJoin(a: Id, b: Id, na: Name, nb: Name, x: RoomId)
    requires a != b
    ensures var s1 := OnJoin(Empty, a, na, x).state;
      OnJoin(s1, b, nb, x).state == State(map[a := User(na, x), b := User(nb, x)], map[x := [a, b]])
  {
    OneJoin(a, na, x);
    JoinSecond(a, b, na, nb, x);
  }

  /** `b` joins room `x` while `a` is its only member. */
  lemma JoinSecond(a: Id, b: Id, na: Name, nb: Name, x: RoomId)
    requires a != b
    ensures OnJoin(State(map[a := User(na, x)], map[x := [a]]), b, nb, x).state
      == State(map[a := User(na, x), b := User(nb, x)], map[x := [a, b]])
  {
    var s1 := State(map[a := User(na, x)], map[x := [a]]);
    JoinState(s1, b, nb, x);
    assert Add([a], b) == [a, b];
    assert AddMember(s1.rooms, x, b) == map[x := [a, b]];
  }

  /** A third connection joins a room holding `a` then `b`. */
  lemma JoinAfterTwo(a: Id, b: Id, c: Id, na: Name, nb: Name, nc: Name, x: RoomId)
    requires a != b && a != c && b != c
    ensures var s2 := State(map[a := User(na, x), b := User(nb, x)], map[x := [a, b]]);
      OnJoin(s2, c, nc, x).out
        == [ Envelope({a, b}, UserJoined(c, nc)),
             Envelope({c}, RoomUsers([RosterEntry(a, Some(na)), RosterEntry(b, Some(nb))])) ]
  {
    var s2 := State(map[a := User(na, x), b := User(nb, x)], map[x := [a, b]]);
    var users := s2.users[c := User(nc, x)];
    assert MembersOf(s2, x) == [a, b];
    FreshJoin(s2, c, nc, x);
    var r := OnJoin(s2, c, nc, x);
    assert r.state.users == users;
    assert Elements([a, b]) == {a, b};
    assert Send({a, b}, UserJoined(c, nc)) == [Envelope({a, b}, UserJoined(c, nc))];
    RosterOfTwo(users, a, b, na, nb, x);
  }

  lemma RosterOfTwo(users: map<Id, User>, a: Id, b: Id, na: Name, nb: Name, x: RoomId)
    requires a in users && users[a] == User(na, x)
    requires b in users && users[b] == User(nb, x)
    ensures Roster(users, [a, b]) == [RosterEntry(a, Some(na)), RosterEntry(b, Some(nb))]
  {
  }

  /** A, B and C join a room in that order: C's roster is A then B, and the
      `userJoined` announcing C goes to A and B and nobody else. */
  lemma ThirdJoinerSeesFirstTwo(a: Id, b: Id, c: Id, na: Name, nb: Name, nc: Name, x: RoomId)
    requires a != b && a != c && b != c
    ensures var s1 := OnJoin(Empty, a, na, x).state;
      var s2 := OnJoin(s1, b, nb, x).state;
      OnJoin(s2, c, nc, x).out
        == [ Envelope({a, b}, UserJoined(c, nc)),
             Envelope({c}, RoomUsers([RosterEntry(a, Some(na)), RosterEntry(b, Some(nb))])) ]
  {
    TwoJoin(a, b, na, nb, x);
    JoinAfterTwo(a, b, c, na, nb, nc, x);
  }

  /** The first of two members of a room disconnects. */
  lemma LeaveFromPair(a: Id, b: Id, na: Name, nb: Name, z: RoomId)
    requires a != b
    ensures var s2 := State(map[a := User(na, z), b := User(nb, z)], map[z := [a, b]]);
      var r := OnDisconnect(s2, a);
      && r.out == [Envelope({b}, UserLeft(a))]
      && r.state == State(map[b := User(nb, z)], map[z := [b]])
  {
    var s2 := State(map[a := User(na, z), b := User(nb, z)], map[z := [a, b]]);
    assert Remove([a, b], a) == [b];
    assert Elements([b]) == {b};
    assert s2.users - {a} == map[b := User(nb, z)];
  }

  /** A and B share a room; A disconnects: B alone hears `userLeft` for A,
      and the room remains with B as its one member. */
  lemma LeaverIsAnnouncedToRoomMate(a: Id, b: Id, na: Name, nb: Name, z: RoomId)
    requires a != b
    ensures var s1 := OnJoin(Empty, a, na, z).state;
      var s2 := OnJoin(s1, b, nb, z).state;
      var r := OnDisconnect(s2, a);
      && r.out == [Envelope({b}, UserLeft(a))]
      && r.state == State(map[b := User(nb, z)], map[z := [b]])
  {
    TwoJoin(a, b, na, nb, z);
    LeaveFromPair(a, b, na, nb, z);
  }

  /** The middle one of three members listed A, B, C disconnects: the room
      lists A then C, so the next joiner's roster is in that order, and both
      remaining members hear `userLeft` for B. */
  lemma MiddleLeaverKeepsOrder(a: Id, b: Id, c: Id, na: Name, nb: Name, nc: Name, x: RoomId)
    requires a != b && a != c && b != c
    ensures var s3 := State(map[a := User(na, x), b := User(nb, x), c := User(nc, x)], map[x := [a, b, c]]);
      var r := OnDisconnect(s3, b);
      && r.state.rooms == map[x := [a, c]]
      && r.out == [Envelope({a, c}, UserLeft(b))]
  {
    var s3 := State(map[a := User(na, x), b := User(nb, x), c := User(nc, x)], map[x := [a, b, c]]);
    var m := [a, b, c];
    assert NoDup(m);
    RemoveKeepsOrder(m, b, 1);
    assert m[..1] + m[2..] == [a, c];
    var after := State(s3.users - {b}, map[x := [a, c]]);
    assert RemoveMember(s3.rooms, x, b) == map[x := [a, c]];
    assert OnDisconnect(s3, b) == Step(after, Broadcast([a, c], b, UserLeft(b)));
    assert Remove([a, c], b) == [a, c];
    assert Elements([a, c]) == {a, c};
  }

  /** The only member of a room disconnects: the room is gone, nobody is
      notified, and the state is empty again. */
  lemma LastLeaverDeletesRoom(a: Id, na: Name, y: RoomId)
    ensures OnDisconnect(OnJoin(Empty, a, na, y).state, a) == Step(Empty, [])
  {
  }

  /** `p` joins room r1, then r2, then disconnects: r1 still lists `p`. */
  lemma RejoinThenLeave(p: Id, np: Name, r1: RoomId, r2: RoomId)
    requires r1 != r2
    ensures var s1 := OnJoin(Empty, p, np, r1).state;
      var s2 := OnJoin(s1, p, np, r2).state;
      OnDisconnect(s2, p).state == State(map[], map[r1 := [p]])
  {
    OneJoin(p, np, r1);
    var s1 := State(map[p := User(np, r1)], map[r1 := [p]]);
    JoinState(s1, p, np, r2);
    var s2 := State(map[p := User(np, r2)], map[r1 := [p], r2 := [p]]);
    assert AddMember(s1.rooms, r2, p) == s2.rooms;
    assert s1.users[p := User(np, r2)] == s2.users;
    assert OnJoin(s1, p, np, r2).state == s2;
    assert Remove([p], p) == [];
    assert RemoveMember(s2.rooms, r2, p) == map[r1 := [p]];
    assert s2.users - {p} == map[];
    assert OnDisconnect(s2, p).state == State(s2.users - {p}, RemoveMember(s2.rooms, r2, p));
  }

  /** `q` joins a room whose directory entry still lists `p`, which is no
      longer registered: the roster names `p` with no username, and the
      `userJoined` envelope is addressed to the listed id. */
  lemma JoinBesideStaleMember(p: Id, q: Id, nq: Name, r1: RoomId)
    requires p != q
    ensures OnJoin(State(map[], map[r1 := [p]]), q, nq, r1).out
        == [ Envelope({p}, UserJoined(q, nq)),
             Envelope({q}, RoomUsers([RosterEntry(p, None)])) ]
  {
    var s3 := State(map[], map[r1 := [p]]);
    FreshJoin(s3, q, nq, r1);
    assert Elements([p]) == {p};
    var roster := Roster(map[q := User(nq, r1)], [p]);
    assert roster == [RosterEntry(p, None)];
  }

  /** The rejoin edge case seen from outside: P joins room r1, then room r2,
      then disconnects. P was never taken out of r1's directory entry, so the
      next joiner of r1 is handed a roster naming P with no username. (The
      envelope listed first is addressed to P's id; the transport, which has
      dropped P's socket, would deliver it to nobody.) */
  lemma StaleMemberHasNoName(p: Id, q: Id, np: Name, nq: Name, r1: RoomId, r2: RoomId)
    requires p != q && r1 != r2
    ensures var s1 := OnJoin(Empty, p, np, r1).state;
      var s2 := OnJoin(s1, p, np, r2).state;
      var s3 := OnDisconnect(s2, p).state;
      OnJoin(s3, q, nq, r1).out
        == [ Envelope({p}, UserJoined(q, nq)),
             Envelope({q}, RoomUsers([RosterEntry(p, None)])) ]
  {
    RejoinThenLeave(p, np, r1, r2);
    JoinBesideStaleMember(p, q, nq, r1);
  }
}
