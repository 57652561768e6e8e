/** The socket event handlers of the relay (server.js, lines 29-108) as pure
    transitions: each takes the state and one inbound event from one connection
    and returns the next state together with the envelopes it emits.

    Transport rooms are abstracted: `socket.to(roomId)` reaches the members the
    directory lists for `roomId`, minus the sender, and `socket.to(target)`
    reaches the connection `target` if it is open and is not the sender.
 */
module Router {
  import opened Members
  import opened Presence
  import opened Events
  import opened Directory

  /** The state after a handler, and what it emitted, in emission order. */
  datatype Step = Step(state: State, out: seq<Envelope>)

  /** `socket.to(...).emit(event)`: an envelope only when someone receives it. */
  function Send(to: set<Id>, event: Outbound): seq<Envelope> {
    if to == {} then [] else [Envelope(to, event)]
  }

  /** `socket.to(roomId).emit(event)` from `sender`: everyone the directory
      lists for the room except the sender. */
  function Broadcast(members: seq<Id>, sender: Id, event: Outbound): (out: seq<Envelope>)
    ensures |out| <= 1
    ensures |out| == 1 <==> exists q :: q in members && q != sender
    ensures forall e :: e in out ==>
      e.event == event && sender !in e.to && (forall q :: q in e.to <==> q in members && q != sender)
  {
    var to := Elements(Remove(members, sender));
    assert (exists q :: q in members && q != sender) <==> to != {} by {
      if exists q :: q in members && q != sender {
        var q :| q in members && q != sender;
        assert q in to;
      }
    }
    Send(to, event)
  }

  /** `connectedUsers.get(id)?.username`. */
  function NameOf(users: map<Id, User>, id: Id): Option<Name> {
    if id in users then Some(users[id].username) else None
  }

  /** One roster entry per id, in order, each with the looked-up name. */
  function Roster(users: map<Id, User>, ids: seq<Id>): (r: seq<RosterEntry>)
    ensures RosterIds(r) == ids
    ensures forall i :: 0 <= i < |r| ==> r[i].username == NameOf(users, r[i].userId)
  {
    var r := seq(|ids|, i requires 0 <= i < |ids| => RosterEntry(ids[i], NameOf(users, ids[i])));
    assert RosterIds(r) == ids;
    r
  }

  /** `join {username, roomId}` from connection `p` (server.js:29-60). The room
      is created if absent, `p` is added to it and (re)recorded in the
      registry; the other members hear `userJoined`, and `p` alone receives the
      roster of the other members. A previous room of `p` is left untouched. */
  function OnJoin(s: State, p: Id, username: Name, roomId: RoomId): (r: Step)
    // registry: p is (re)recorded, nobody else changes
    ensures p in r.state.users && r.state.users[p] == User(username, roomId)
    ensures forall q :: q != p ==> (q in r.state.users <==> q in s.users)
    ensures forall q :: q != p && q in s.users ==> r.state.users[q] == s.users[q]
    // directory: the room exists and holds p besides its previous members
    ensures r.state.rooms.Keys == s.rooms.Keys + {roomId}
    ensures forall y :: y in r.state.rooms[roomId] <==> y in MembersOf(s, roomId) || y == p
    ensures p in MembersOf(s, roomId) ==> r.state.rooms[roomId] == s.rooms[roomId]
    ensures NoDup(MembersOf(s, roomId)) ==> NoDup(r.state.rooms[roomId])
    ensures forall q :: q in s.rooms && q != roomId ==> r.state.rooms[q] == s.rooms[q]
    // output: an optional userJoined broadcast, then the roster for p
    ensures 1 <= |r.out| <= 2
    ensures r.out[|r.out| - 1].to == {p} && r.out[|r.out| - 1].event.RoomUsers?
    ensures var roster := r.out[|r.out| - 1].event.users;
      && (forall q :: q in RosterIds(roster) <==> q in r.state.rooms[roomId] && q != p)
      && (forall i :: 0 <= i < |roster| ==> roster[i].username == NameOf(r.state.users, roster[i].userId))
      && (NoDup(MembersOf(s, roomId)) ==> |roster| == |r.state.rooms[roomId]| - 1)
    ensures |r.out| == 2 <==> exists q :: q in r.state.rooms[roomId] && q != p
    ensures |r.out| == 2 ==>
      && r.out[0].event == UserJoined(p, username)
      && (forall q :: q in r.out[0].to <==> q in r.state.rooms[roomId] && q != p)
  {
    var rooms := AddMember(s.rooms, roomId, p);
    var users := s.users[p := User(username, roomId)];
    var others := Remove(rooms[roomId], p);
    assert NoDup(MembersOf(s, roomId)) ==> |others| == |rooms[roomId]| - 1 by {
      if NoDup(MembersOf(s, roomId)) { RemoveSize(rooms[roomId], p); }
    }
    Step(State(users, rooms),
         Broadcast(rooms[roomId], p, UserJoined(p, username))
         + [Envelope({p}, RoomUsers(Roster(users, others)))])
  }

  /** `offer`, `answer` or `iceCandidate` {target, payload} from `sender`
      (server.js:63-82): forwarded unchanged, under the same event name, with
      `from` set to the sender, to `target` alone. `live` is the set of open
      transport connections; a target outside it, or the sender itself
      (`socket.to` never delivers back to the sender), receives nothing. The
      state is neither read nor changed. */
  function OnSignal(s: State, live: set<Id>, sender: Id, kind: SignalKind, target: Id, payload: Payload): (r: Step)
    ensures r.state == s
    ensures |r.out| <= 1
    ensures |r.out| == 1 <==> target in live && target != sender
    ensures forall e :: e in r.out ==> e.to == {target} && e.event == Forwarded(kind, payload, sender)
  {
    var to := if target in live && target != sender then {target} else {};
    Step(s, Send(to, Forwarded(kind, payload, sender)))
  }

  /** Transport disconnect of `p` (server.js:85-108). An unregistered `p` is
      ignored. Otherwise `p` leaves the room its record names, the room is
      deleted if that leaves it empty, the remaining members hear `userLeft`,
      and the record is dropped. */
  function OnDisconnect(s: State, p: Id): (r: Step)
    ensures p !in s.users ==> r == Step(s, [])
    ensures p in s.users ==>
      var room := s.users[p].roomId;
      // registry: exactly p's record goes
      && p !in r.state.users
      && (forall q :: q != p ==> (q in r.state.users <==> q in s.users))
      && (forall q :: q != p && q in s.users ==> r.state.users[q] == s.users[q])
      // directory: p leaves its room, which goes exactly when p was its last member
      && (room in s.rooms ==> forall y :: y in MembersOf(r.state, room) <==> y in s.rooms[room] && y != p)
      && (room in s.rooms ==> (room !in r.state.rooms <==> forall y :: y in s.rooms[room] ==> y == p))
      && (room !in s.rooms ==> r.state.rooms == s.rooms)
      && (forall q :: q != room ==> (q in r.state.rooms <==> q in s.rooms))
      && (forall q :: q != room && q in s.rooms ==> r.state.rooms[q] == s.rooms[q])
      // output: userLeft to the members still in the room, if any
      && |r.out| <= 1
      && (|r.out| == 1 <==> MembersOf(r.state, room) != [])
      && (forall e :: e in r.out ==>
            && e.event == UserLeft(p)
            && p !in e.to
            && (forall y :: y in e.to <==> y in MembersOf(r.state, room)))
  {
    if p !in s.users then Step(s, [])
    else
      var room := s.users[p].roomId;
      var after := State(s.users - {p}, RemoveMember(s.rooms, room, p));
      Step(after, Broadcast(MembersOf(after, room), p, UserLeft(p)))
  }

  /** The single entry point: dispatch on the closed set of inbound events. */
  function Handle(s: State, live: set<Id>, sender: Id, ev: Inbound): (r: Step)
    ensures !ev.Join? ==> r.state.users.Keys <= s.users.Keys
    ensures ev.Signal? ==> r.state == s
    ensures forall q :: q != sender ==> (q in r.state.users <==> q in s.users)
    ensures forall q :: q != sender && q in s.users ==> r.state.users[q] == s.users[q]
    ensures forall i :: 0 <= i < |r.out| ==> Attributed(r.out[i], sender)
  {
    match ev
    case Join(username, roomId) => OnJoin(s, sender, username, roomId)
    case Signal(kind, target, payload) => OnSignal(s, live, sender, kind, target, payload)
    case Disconnect => OnDisconnect(s, sender)
  }

  /** Every event a handler emits concerns its sender, and only the roster is
      ever delivered back to the sender. */
  predicate Attributed(e: Envelope, sender: Id) {
    match e.event
    case UserJoined(userId, _) => userId == sender && sender !in e.to
    case RoomUsers(_) => e.to == {sender}
    case Forwarded(_, _, from) => from == sender && sender !in e.to
    case UserLeft(userId) => userId == sender && sender !in e.to
  }

  /** One inbound event as the transport hands it over. */
  datatype Delivery = Delivery(sender: Id, event: Inbound)

  /** Handlers run to completion one at a time, so a run of the relay is a
      left fold of `Handle` over the deliveries; the emitted envelopes are
      concatenated in order. `live` is taken as fixed over the run. */
  function Run(s: State, live: set<Id>, trace: seq<Delivery>): (r: Step)
    decreases |trace|
  {
    if trace == [] then Step(s, [])
    else
      var first := Handle(s, live, trace[0].sender, trace[0].event);
      var rest := Run(first.state, live, trace[1..]);
      Step(rest.state, first.out + rest.out)
  }
}
