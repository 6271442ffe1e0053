/** Values exchanged between the signalling server and its peers, after JSON
    decoding and before JSON encoding. */
module Messages {

  datatype Option<+T> = None | Some(value: T)

  /** An opaque handle for one WebSocket connection: only its identity matters. */
  datatype Conn = Conn(id: nat)

  /** An inbound message: its `type` field, its `room` field (None when the
      field is missing) and the rest of the object (the `payload` and any
      other fields), which the server never looks into. */
  datatype Signal = Signal(kind: string, room: Option<string>, payload: string)

  /** The messages the server sends. */
  datatype Msg =
    | Joined(room: string, isHost: bool, peerCount: nat)
    | Error(text: string)
    | PeerJoined(room: string)
    | PeerLeft(room: string)
    | Relayed(signal: Signal)

  /** One call of `send`: the connection it was made on and what was sent. */
  datatype Delivery = Delivery(to: Conn, msg: Msg)

  const InvalidCodeText := "Invalid room code (4-8 digits required)"
  const RoomFullText := "Room is full"
  const RoomNotFoundText := "Room not found"
}
