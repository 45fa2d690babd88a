/**
  Wire-level vocabulary shared by the client reconciler: player records and the
  decoded form of every message the client receives or sends.

  The byte layout (offsets, widths, `verify`) belongs to the shared schema, which is
  not part of this model; here a received frame is already decoded into `Inbound`,
  and a frame that no schema entry accepts is `Bogus`.
*/
module Protocol {

  datatype Option<+T> = None | Some(value: T)

  /** An unsigned byte, as read from a `u8` field. */
  newtype u8 = x: int | 0 <= x < 256

  /** Player ids are unsigned integers assigned by the server. */
  type Id = nat

  /** The four movement intents a player can switch on or off. */
  datatype Moving = TurningLeft | TurningRight | MovingForward | MovingBackward

  /**
    One player as the client mirrors it, and equally one player record of a batched
    message: id, position, facing direction, the raw `moving` bitmask byte and the
    raw hue byte. Position and direction are 32-bit floats on the wire; they are
    carried as reals and never computed with here.
  */
  datatype Player = Player(id: Id, x: real, y: real, direction: real, moving: u8, hue: u8)

  /** A decoded server-to-client frame. */
  datatype Inbound =
    | Hello(id: Id, x: real, y: real, direction: real, hue: u8)
    | PlayersJoined(joined: seq<Player>)
    | PlayersLeft(left: seq<Id>)
    | PlayersMoving(moved: seq<Player>)
    | Pong(timestamp: real)
    | Bogus   // not binary, or accepted by no message kind's `verify`

  /** A client-to-server frame. `start` is 1 when an intent starts and 0 when it stops. */
  datatype Outbound =
    | AmmaMoving(start: u8, direction: Moving)
    | Ping(timestamp: real)
}
