/**
 * What the model keeps of a TCP socket: whether a handler or window still holds
 * one and whether it reports itself connected, and what one receive call gave.
 */
module Transport {

  /** A receive that returned at least one byte decodes to a non-empty string. */
  type Payload = s: string | |s| > 0 witness "?"

  /** One ReceiveAsync call: some bytes, a zero-byte read (the peer closed), or a
      thrown socket exception. */
  datatype ReadResult = Data(payload: Payload) | Closed | Error

  /** The `Socket?` field of a handler or window: null, or a socket with its
      `Connected` flag. */
  datatype Socket = NoSocket | Open(connected: bool)

  /** The guard of every send: a socket is held and it is connected. */
  predicate CanSend(s: Socket) {
    s.Open? && s.connected
  }

  /** What one guarded send writes to the peer. */
  function Sent(s: Socket, message: string): seq<string> {
    if CanSend(s) then [message] else []
  }
}
