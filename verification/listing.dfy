/** The read-only room report behind `GET /api/rooms` (server.js:116-122):
    one `{id, userCount}` entry per room of the directory.
 */
module RoomListing {
  import opened Members
  import opened Presence

  /** One line of the report. */
  datatype RoomInfo = RoomInfo(id: RoomId, userCount: nat)

  /** The report has an entry for room `id`. */
  ghost predicate Reports(list: seq<RoomInfo>, id: RoomId) {
    exists i :: 0 <= i < |list| && list[i].id == id
  }

  /** Projects the directory to `(id, size)` pairs: every room exactly once,
      each with its member count. The source lists rooms in insertion order;
      here the order is left open. In a state without empty rooms no entry
      reports zero users. */
  method ListRooms(s: State) returns (list: seq<RoomInfo>)
    ensures |list| == |s.rooms|
    ensures forall id :: Reports(list, id) <==> id in s.rooms
    ensures forall i, j :: 0 <= i < j < |list| ==> list[i].id != list[j].id
    ensures forall i :: 0 <= i < |list| ==> list[i].id in s.rooms && list[i].userCount == |s.rooms[list[i].id]|
    ensures NoEmptyRooms(s) ==> forall i :: 0 <= i < |list| ==> list[i].userCount > 0
    ensures DuplicateFree(s) ==> forall i :: 0 <= i < |list| ==> list[i].userCount == |Elements(s.rooms[list[i].id])|
  {
    list := [];
    var pending := s.rooms.Keys;
    while pending != {}
      invariant pending <= s.rooms.Keys
      invariant forall id :: Reports(list, id) <==> id in s.rooms && id !in pending
      invariant |list| + |pending| == |s.rooms.Keys|
      invariant forall i, j :: 0 <= i < j < |list| ==> list[i].id != list[j].id
      invariant forall i :: 0 <= i < |list| ==> list[i].id in s.rooms && list[i].userCount == |s.rooms[list[i].id]|
      decreases |pending|
    {
      var id :| id in pending;
      var entry := RoomInfo(id, |s.rooms[id]|);
      ghost var before := list;
      list := list + [entry];
      assert list[|before|] == entry;
      forall other
        ensures Reports(list, other) <==> Reports(before, other) || other == id
      {
        if Reports(list, other) {
          var k :| 0 <= k < |list| && list[k].id == other;
          if k < |before| { assert before[k] == list[k]; }
        }
        if Reports(before, other) {
          var k :| 0 <= k < |before| && before[k].id == other;
          assert list[k] == before[k];
        }
      }
      pending := pending - {id};
    }
    assert |s.rooms.Keys| == |s.rooms|;
    if DuplicateFree(s) {
      forall i | 0 <= i < |list|
        ensures list[i].userCount == |Elements(s.rooms[list[i].id])|
      {
        DistinctCount(s.rooms[list[i].id]);
      }
    }
  }

}
