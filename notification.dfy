/** The payload that each client session sends to the hub over the shared channel:
    `Notification` and the `ClientMessage` it carries for received data. */
module Notifications {

  /** One octet of the TCP stream. */
  newtype byte = b: int | 0 <= b < 0x100

  /** A peer's socket address (`SocketAddr`). The session only copies it and the
      model only compares it, so its parts are kept plain. */
  datatype SocketAddr = SocketAddr(ip: seq<byte>, port: int)

  /** An instant as given by `chrono::Utc::now()`, in nanoseconds since the Unix epoch. */
  type Timestamp = int

  /** The data of one successful read: who sent it, when it was read and its text. */
  datatype ClientMessage = ClientMessage(author: SocketAddr, date: Timestamp, msg: string)

  /** The events a session reports. The source shares the address through an `Arc`;
      here it is a value, so "the same address" is plain equality. */
  datatype Notification =
    | ClientConnection(addr: SocketAddr)
    | ClientDisconnection(addr: SocketAddr)
    | NewMessage(message: ClientMessage)

  /** The connection a notification is about. */
  function Origin(n: Notification): SocketAddr
  {
    match n
    case ClientConnection(a) => a
    case ClientDisconnection(a) => a
    case NewMessage(m) => m.author
  }
}
