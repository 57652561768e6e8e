/** The socket events the relay receives and emits, as closed variant types.

    Negotiation payloads (session descriptions and network-path candidates)
    belong to the peer-to-peer protocol; the relay never looks inside them, so
    they are an opaque string here.
 */
module Events {
  import opened Members
  import opened Presence

  datatype Option<T> = None | Some(value: T)

  /** Opaque negotiation payload. */
  type Payload = string

  /** The three negotiation messages; each is relayed under its own event name
      and payload field (`offer`, `answer`, `iceCandidate` carrying `candidate`). */
  datatype SignalKind = Offer | Answer | IceCandidate

  /** What a connection can deliver to the relay. `Disconnect` is raised by the
      transport rather than sent by the client. */
  datatype Inbound =
    | Join(username: Name, roomId: RoomId)
    | Signal(kind: SignalKind, target: Id, payload: Payload)
    | Disconnect

  /** One line of the roster: `username` is `None` where the source's
      `connectedUsers.get(id)?.username` yields `undefined`. */
  datatype RosterEntry = RosterEntry(userId: Id, username: Option<Name>)

  /** What the relay emits. */
  datatype Outbound =
    | UserJoined(userId: Id, username: Name)
    | RoomUsers(users: seq<RosterEntry>)
    | Forwarded(kind: SignalKind, payload: Payload, from: Id)
    | UserLeft(userId: Id)

  /** An outbound event together with the connections it is delivered to. */
  datatype Envelope = Envelope(to: set<Id>, event: Outbound)

  /** The ids a roster names, in order. */
  function RosterIds(roster: seq<RosterEntry>): (r: seq<Id>)
    ensures |r| == |roster|
    ensures forall i :: 0 <= i < |roster| ==> r[i] == roster[i].userId
  {
    if roster == [] then [] else [roster[0].userId] + RosterIds(roster[1..])
  }
}
