/**
 Shared vocabulary of the chess session server: connection ids, players,
 chat messages and the two sides of a board.
 */
module Common {

  /** The conventional Some/None datatype; `None` plays the part of `undefined`. */
  datatype Option<+T> = None | Some(value: T)

  /** A socket.io connection id, used as the player's identity everywhere. */
  type Id = string

  /** A player as the server stores it: the connection id, a display name and an avatar. */
  datatype User = User(id: Id, username: string, pic: string)

  /** The author of a chat message as the client sends it; the id may be absent. */
  datatype ClientUser = ClientUser(id: Option<Id>, username: string, pic: string)

  /** A chat message; `time` is the client's timestamp in milliseconds. */
  datatype Chat = Chat(user: ClientUser, message: string, time: int)

  datatype Side = White | Black

  /** The side that moves after `s`. */
  function Flip(s: Side): (r: Side)
    ensures r != s
  {
    if s == White then Black else White
  }
}
