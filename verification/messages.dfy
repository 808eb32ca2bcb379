/**
 * The message types the dispatcher consumes and produces: the envelope of
 * src/ws/mod.rs, the client and server message variants read off the
 * dispatcher's match arms, and the two pool calls through which replies
 * leave the namespace.
 */
module Messages {

  /** Connection identifiers; the source's `usize` counter. */
  type SocketId = nat

  datatype ClientMessage =
    | Subscribe(store: string, initial: string)
    | Unsubscribe(store: string)
    | Set(store: string, value: string)
    | Get(store: string)

  datatype ServerMessage = Update(store: string, value: string)

  /** `TaggedMessage<ClientMessage, bool>`: the message, the connection it
      came from, and that connection's write capability. */
  datatype TaggedMessage = TaggedMessage(socketId: SocketId, message: ClientMessage, canWrite: bool)

  /** One outbound pool call: `send_to` one socket, or `send_to_many` a
      snapshot of subscribers. */
  datatype Outgoing =
    | SendTo(socket: SocketId, message: ServerMessage)
    | SendToMany(sockets: seq<SocketId>, message: ServerMessage)

  /** What `send_to_many` leaves in its `&mut` vector after sending to the
      given snapshot (by the source's comment, the ids it could not reach). */
  type SendToManyOracle = seq<SocketId> -> seq<SocketId>
}
