/** The room directory's two mutations, as the handlers perform them on the
    `rooms` map: add an id to a room, creating the room first if needed
    (server.js:33-38), and remove an id from a room, deleting the room if it
    is left empty (server.js:91-97).
 */
module Directory {
  import opened Members
  import opened Presence

  type Rooms = map<RoomId, seq<Id>>

  /** Adds `id` to room `roomId`, creating the room first when the directory
      has no entry for it. */
  function AddMember(rooms: Rooms, roomId: RoomId, id: Id): (r: Rooms)
    ensures r.Keys == rooms.Keys + {roomId}
    ensures forall y :: y in r[roomId] <==> (roomId in rooms && y in rooms[roomId]) || y == id
    ensures roomId in rooms && id in rooms[roomId] ==> r == rooms
    ensures roomId in rooms && NoDup(rooms[roomId]) ==> NoDup(r[roomId])
    ensures roomId !in rooms ==> r[roomId] == [id]
    ensures forall q :: q in rooms && q != roomId ==> r[q] == rooms[q]
  {
    var before := if roomId in rooms then rooms[roomId] else [];
    rooms[roomId := Add(before, id)]
  }

  /** Takes `id` out of room `roomId` and drops the room once nobody is left
      in it; a room the directory does not know is left alone. */
  function RemoveMember(rooms: Rooms, roomId: RoomId, id: Id): (r: Rooms)
    ensures roomId !in rooms ==> r == rooms
    ensures roomId in rooms ==> (roomId !in r <==> forall y :: y in rooms[roomId] ==> y == id)
    ensures roomId in r ==> r[roomId] != [] && (forall y :: y in r[roomId] <==> y in rooms[roomId] && y != id)
    ensures roomId in r && NoDup(rooms[roomId]) ==> NoDup(r[roomId])
    ensures roomId in r ==> r[roomId] == Remove(rooms[roomId], id)
    ensures forall q :: q != roomId ==> (q in r <==> q in rooms)
    ensures forall q :: q != roomId && q in rooms ==> r[q] == rooms[q]
  {
    if roomId !in rooms then rooms
    else
      var left := Remove(rooms[roomId], id);
      assert left == [] <==> forall y :: y in rooms[roomId] ==> y == id by {
        if left != [] { assert left[0] in left; }
      }
      if left == [] then rooms - {roomId} else rooms[roomId := left]
  }
}
