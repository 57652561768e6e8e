/** What the handlers do to the invariant `Valid` (module Presence), and the
    promises of each handler that only hold in a valid state.

    `join` keeps the registry and directory consistent only when the joining
    connection is not registered yet (or rejoins the room it is already in):
    a second `join` into another room overwrites the record but leaves the id
    in the earlier room's member set (server.js:38-39).
 */
module Invariants {
  import opened Members
  import opened Presence
  import opened Events
  import opened Directory
  import opened Router

  /** The state a join leaves behind: the record set and the id added to
      the room, nothing more. */
  lemma JoinState(s: State, p: Id, username: Name, roomId: RoomId)
    ensures OnJoin(s, p, username, roomId).state
      == State(s.users[p := User(username, roomId)], AddMember(s.rooms, roomId, p))
  {
  }

  /** Join never leaves an empty room behind and never duplicates a member. */
  lemma JoinKeepsRoomsWellFormed(s: State, p: Id, username: Name, roomId: RoomId)
    requires NoEmptyRooms(s) && DuplicateFree(s)
    ensures NoEmptyRooms(OnJoin(s, p, username, roomId).state)
    ensures DuplicateFree(OnJoin(s, p, username, roomId).state)
  {
    JoinState(s, p, username, roomId);
    AddKeepsRoomsWellFormed(s, p, username, roomId);
  }

  /** A first join (or a repeated join into the same room) keeps the state valid. */
  lemma JoinKeepsValid(s: State, p: Id, username: Name, roomId: RoomId)
    requires Valid(s)
    requires p !in s.users || s.users[p].roomId == roomId
    ensures Valid(OnJoin(s, p, username, roomId).state)
  {
    JoinState(s, p, username, roomId);
    AddKeepsRoomsWellFormed(s, p, username, roomId);
    AddKeepsUsersInTheirRooms(s, p, username, roomId);
    AddKeepsMembersRegistered(s, p, username, roomId);
  }

  lemma AddKeepsRoomsWellFormed(s: State, p: Id, username: Name, roomId: RoomId)
    requires NoEmptyRooms(s) && DuplicateFree(s)
    ensures var s' := State(s.users[p := User(username, roomId)], AddMember(s.rooms, roomId, p));
      NoEmptyRooms(s') && DuplicateFree(s')
  {
    var rooms := AddMember(s.rooms, roomId, p);
    assert p in rooms[roomId];
  }

  lemma AddKeepsUsersInTheirRooms(s: State, p: Id, username: Name, roomId: RoomId)
    requires UsersInTheirRooms(s)
    ensures UsersInTheirRooms(State(s.users[p := User(username, roomId)], AddMember(s.rooms, roomId, p)))
  {
    var s' := State(s.users[p := User(username, roomId)], AddMember(s.rooms, roomId, p));
    forall q | q in s'.users
      ensures s'.users[q].roomId in s'.rooms && q in s'.rooms[s'.users[q].roomId]
    {
      if q != p {
        var rq := s.users[q].roomId;
        assert q in s.rooms[rq];
      }
    }
  }

  lemma AddKeepsMembersRegistered(s: State, p: Id, username: Name, roomId: RoomId)
    requires MembersRegistered(s)
    requires p !in s.users || s.users[p].roomId == roomId
    ensures MembersRegistered(State(s.users[p := User(username, roomId)], AddMember(s.rooms, roomId, p)))
  {
    var s' := State(s.users[p := User(username, roomId)], AddMember(s.rooms, roomId, p));
    forall r, q | r in s'.rooms && q in s'.rooms[r]
      ensures q in s'.users && s'.users[q].roomId == r
    {
      if r == roomId {
        if q != p {
          assert q in s.rooms[roomId];
        }
      } else {
        assert q in s.rooms[r];
      }
    }
  }

  /** The caveat: joining a second, different room from an already-registered
      connection leaves it listed in its first room while its record names the
      second, so the state is no longer valid. */
  lemma RejoinElsewhereBreaksValidity(s: State, p: Id, username: Name, roomId: RoomId)
    requires Valid(s)
    requires p in s.users && s.users[p].roomId != roomId
    ensures var s' := OnJoin(s, p, username, roomId).state;
      && s.users[p].roomId in s'.rooms
      && p in s'.rooms[s.users[p].roomId]
      && s'.users[p].roomId == roomId
      && !Valid(s')
  {
  }

  /** When every listed member is registered, a newcomer's roster is exactly
      the room's previous members, in the order they joined, every one of them
      with a name. */
  lemma JoinRosterIsPreviousMembers(s: State, p: Id, username: Name, roomId: RoomId)
    requires MembersRegistered(s)
    requires p !in s.users
    ensures var r := OnJoin(s, p, username, roomId);
      var roster := r.out[|r.out| - 1].event.users;
      && RosterIds(roster) == MembersOf(s, roomId)
      && (forall i :: 0 <= i < |roster| ==> roster[i].username.Some?)
  {
    var m := MembersOf(s, roomId);
    assert p !in m;
    FreshJoin(s, p, username, roomId);
    var r := OnJoin(s, p, username, roomId);
    var roster := Roster(r.state.users, m);
    assert RosterIds(roster) == m;
    forall i | 0 <= i < |roster|
      ensures roster[i].username.Some?
    {
      assert roster[i].userId == m[i];
      assert m[i] in r.state.users;
    }
  }

  /** The whole effect of a join by a connection not yet in the room: it is
      appended to the room, recorded, announced to the previous members, and
      handed those members as its roster. */
  lemma FreshJoin(s: State, p: Id, username: Name, roomId: RoomId)
    requires p !in MembersOf(s, roomId)
    ensures var r := OnJoin(s, p, username, roomId);
      && r.state.users == s.users[p := User(username, roomId)]
      && r.state.rooms == s.rooms[roomId := MembersOf(s, roomId) + [p]]
      && r.out == Send(Elements(MembersOf(s, roomId)), UserJoined(p, username))
                  + [Envelope({p}, RoomUsers(Roster(r.state.users, MembersOf(s, roomId))))]
  {
    var m := MembersOf(s, roomId);
    assert Add(m, p) == m + [p];
    RemoveAppended(m, p);
  }

  /** Removing an element that was just appended to a sequence not containing
      it gives the sequence back. */
  lemma {:induction false} RemoveAppended(m: seq<Id>, x: Id)
    requires x !in m
    ensures Remove(m + [x], x) == m
  {
    if m != [] {
      assert (m + [x])[1..] == m[1..] + [x];
      RemoveAppended(m[1..], x);
    }
  }

  /** Disconnect keeps the state valid. */
  lemma DisconnectKeepsValid(s: State, p: Id)
    requires Valid(s)
    ensures Valid(OnDisconnect(s, p).state)
  {
    if p in s.users {
      var room := s.users[p].roomId;
      var s' := OnDisconnect(s, p).state;
      assert s' == State(s.users - {p}, RemoveMember(s.rooms, room, p));
      RemoveKeepsRoomsWellFormed(s, room, p);
      RemoveKeepsUsersInTheirRooms(s, p);
      RemoveKeepsMembersRegistered(s, p);
    }
  }

  /** Disconnect never leaves an empty room behind and never duplicates a
      member, whatever the state's consistency: the room it empties is deleted. */
  lemma DisconnectKeepsRoomsWellFormed(s: State, p: Id)
    requires NoEmptyRooms(s) && DuplicateFree(s)
    ensures NoEmptyRooms(OnDisconnect(s, p).state)
    ensures DuplicateFree(OnDisconnect(s, p).state)
  {
    if p in s.users {
      var room := s.users[p].roomId;
      assert OnDisconnect(s, p).state == State(s.users - {p}, RemoveMember(s.rooms, room, p));
      RemoveKeepsRoomsWellFormed(s, room, p);
    }
  }

  lemma RemoveKeepsRoomsWellFormed(s: State, room: RoomId, p: Id)
    requires NoEmptyRooms(s) && DuplicateFree(s)
    ensures var s' := State(s.users - {p}, RemoveMember(s.rooms, room, p));
      NoEmptyRooms(s') && DuplicateFree(s')
  {
  }

  lemma RemoveKeepsUsersInTheirRooms(s: State, p: Id)
    requires p in s.users
    requires UsersInTheirRooms(s)
    ensures var room := s.users[p].roomId;
      UsersInTheirRooms(State(s.users - {p}, RemoveMember(s.rooms, room, p)))
  {
    var room := s.users[p].roomId;
    var s' := State(s.users - {p}, RemoveMember(s.rooms, room, p));
    forall q | q in s'.users
      ensures s'.users[q].roomId in s'.rooms && q in s'.rooms[s'.users[q].roomId]
    {
      assert q != p && s'.users[q] == s.users[q];
      var rq := s.users[q].roomId;
      assert q in s.rooms[rq];
      if rq == room {
        assert !(forall y :: y in s.rooms[room] ==> y == p);
      }
    }
  }

  lemma RemoveKeepsMembersRegistered(s: State, p: Id)
    requires p in s.users
    requires MembersRegistered(s)
    ensures var room := s.users[p].roomId;
      MembersRegistered(State(s.users - {p}, RemoveMember(s.rooms, room, p)))
  {
    var room := s.users[p].roomId;
    var s' := State(s.users - {p}, RemoveMember(s.rooms, room, p));
    forall r, q | r in s'.rooms && q in s'.rooms[r]
      ensures q in s'.users && s'.users[q].roomId == r
    {
      if r == room {
        assert q in s.rooms[room] && q != p;
      } else {
        assert q in s.rooms[r];
        assert q != p;
      }
    }
  }

  /** In a valid state, `userLeft` reaches exactly the members the leaver
      shared its room with. */
  lemma DisconnectNotifiesRoomMates(s: State, p: Id)
    requires Valid(s)
    requires p in s.users
    ensures var r := OnDisconnect(s, p);
      forall e :: e in r.out ==> e.to == Elements(s.rooms[s.users[p].roomId]) - {p}
  {
  }

  /** Disconnect is idempotent: a second disconnect of the same id changes
      nothing and emits nothing. */
  lemma DisconnectTwiceIsNoOp(s: State, p: Id)
    ensures var once := OnDisconnect(s, p);
      OnDisconnect(once.state, p) == Step(once.state, [])
  {
  }

  /** Relay looks at neither map: the target need not share a room with the
      sender, and the same message is delivered whatever the state. */
  lemma SignalIgnoresState(s1: State, s2: State, live: set<Id>, sender: Id, kind: SignalKind, target: Id, payload: Payload)
    ensures OnSignal(s1, live, sender, kind, target, payload).out == OnSignal(s2, live, sender, kind, target, payload).out
  {
  }

  /** A dispatched event keeps the state valid, provided it is not a join into
      a different room from an already-registered connection. */
  lemma HandleKeepsValid(s: State, live: set<Id>, sender: Id, ev: Inbound)
    requires Valid(s)
    requires ev.Join? ==> sender !in s.users || s.users[sender].roomId == ev.roomId
    ensures Valid(Handle(s, live, sender, ev).state)
  {
    match ev
    case Join(username, roomId) => JoinKeepsValid(s, sender, username, roomId);
    case Signal(_, _, _) =>
    case Disconnect => DisconnectKeepsValid(s, sender);
  }

  /** Every dispatched event, a rejoin into another room included, keeps
      rooms non-empty and duplicate-free. */
  lemma HandleKeepsRoomsWellFormed(s: State, live: set<Id>, sender: Id, ev: Inbound)
    requires NoEmptyRooms(s) && DuplicateFree(s)
    ensures NoEmptyRooms(Handle(s, live, sender, ev).state)
    ensures DuplicateFree(Handle(s, live, sender, ev).state)
  {
    match ev
    case Join(username, roomId) => JoinKeepsRoomsWellFormed(s, sender, username, roomId);
    case Signal(_, _, _) =>
    case Disconnect => DisconnectKeepsRoomsWellFormed(s, sender);
  }

  /** Over any run, with no restriction on who joins what, no room is ever
      left empty and no member is listed twice. */
  lemma {:induction false} RunKeepsRoomsWellFormed(s: State, live: set<Id>, trace: seq<Delivery>)
    requires NoEmptyRooms(s) && DuplicateFree(s)
    ensures NoEmptyRooms(Run(s, live, trace).state)
    ensures DuplicateFree(Run(s, live, trace).state)
    decreases |trace|
  {
    if trace != [] {
      HandleKeepsRoomsWellFormed(s, live, trace[0].sender, trace[0].event);
      RunKeepsRoomsWellFormed(Handle(s, live, trace[0].sender, trace[0].event).state, live, trace[1..]);
    }
  }

  /** No connection joins twice in the trace. */
  ghost predicate JoinsAtMostOnce(trace: seq<Delivery>) {
    forall i, j :: 0 <= i < j < |trace| && trace[i].event.Join? && trace[j].event.Join? ==>
      trace[i].sender != trace[j].sender
  }

  /** No join in the trace comes from a connection already registered in `s`. */
  ghost predicate FreshJoiners(s: State, trace: seq<Delivery>) {
    forall i :: 0 <= i < |trace| && trace[i].event.Join? ==> trace[i].sender !in s.users
  }

  /** The central invariant over whole runs: from a valid state, if every
      connection joins at most once, the registry and directory stay consistent
      and no room is ever left empty. */
  lemma {:induction false} RunKeepsValid(s: State, live: set<Id>, trace: seq<Delivery>)
    requires Valid(s)
    requires JoinsAtMostOnce(trace)
    requires FreshJoiners(s, trace)
    ensures Valid(Run(s, live, trace).state)
    decreases |trace|
  {
    if trace != [] {
      var d := trace[0];
      var next := Handle(s, live, d.sender, d.event).state;
      HandleKeepsValid(s, live, d.sender, d.event);
      var rest := trace[1..];
      assert JoinsAtMostOnce(rest) by {
        forall i, j | 0 <= i < j < |rest| && rest[i].event.Join? && rest[j].event.Join?
          ensures rest[i].sender != rest[j].sender
        {
          assert rest[i] == trace[i + 1] && rest[j] == trace[j + 1];
        }
      }
      assert FreshJoiners(next, rest) by {
        forall i | 0 <= i < |rest| && rest[i].event.Join?
          ensures rest[i].sender !in next.users
        {
          assert rest[i] == trace[i + 1];
          if d.event.Join? {
            assert d.sender != rest[i].sender;
          }
        }
      }
      RunKeepsValid(next, live, rest);
    }
  }

  /** Every envelope of a whole run concerns the connection whose event caused it. */
  lemma {:induction false} RunOutputAttributed(s: State, live: set<Id>, trace: seq<Delivery>)
    ensures forall e :: e in Run(s, live, trace).out ==> exists d :: d in trace && Attributed(e, d.sender)
    decreases |trace|
  {
    if trace != [] {
      var first := Handle(s, live, trace[0].sender, trace[0].event);
      var rest := Run(first.state, live, trace[1..]);
      RunOutputAttributed(first.state, live, trace[1..]);
      forall e | e in first.out + rest.out
        ensures exists d :: d in trace && Attributed(e, d.sender)
      {
        if e in first.out {
          var k :| 0 <= k < |first.out| && first.out[k] == e;
          assert trace[0] in trace && Attributed(e, trace[0].sender);
        } else {
          var d :| d in trace[1..] && Attributed(e, d.sender);
          assert d in trace;
        }
      }
    }
  }
}
