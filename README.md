# Client reconciler of a multiplayer session synchronizer

This project is a Dafny model of the browser client of a small real-time
multiplayer game. The server owns the world. The client keeps a local mirror of
the server's player registry, keyed by player id, and updates that mirror from
the binary messages it receives. The model covers three parts of the client:

- **Reconciler.** The client starts *unidentified*. In that state it accepts
  only a `Hello`, which gives it its own id and its own player. Once
  *identified*, it tries each message as `PlayersJoined`, `PlayersLeft`,
  `PlayersMoving` and `Pong`, in that order:
  - `PlayersJoined` inserts or fully overwrites entries.
  - `PlayersLeft` deletes entries.
  - `PlayersMoving` overwrites the pose and movement of known players and closes
    the connection at the first unknown one.
  - `Pong` sets the measured round-trip time.
  - Any other message closes the connection.
- **Latency probe.** A frame counter sends one `Ping` every 60 rendered frames
  while the connection is up.
- **Movement intents.** A fixed table maps key codes to the four movement
  flags. A key press or release on a bound key sends an `AmmaMoving` message
  with start = 1 or start = 0.

Layout:

- `protocol.dfy`: player records and the decoded inbound and outbound messages.
- `mirror.dfy`: the three batch updates as functions over the mirror, with
  lemmas saying what each batch does to every entry.
- `reconciler.dfy`: the client state, its invariant, and `Receive`, the step
  function for one inbound message, with lemmas for every kind of message.
- `latency.dfy`: the ping counter and the closed form of its behaviour over any
  number of frames.
- `intent.dfy`: the key table and the intent message.
- `client.dfy`: the class `Client`. Its fields are the client script's closure
  variables, and its methods are the event listeners. They update the map in
  place with counted loops, including the early exit in the `PlayersMoving`
  loop. Each method is proved equal to the matching specification function.

A decoded message has exactly one kind, because the decoder checks the leading
discriminant byte. So the first-match order of the listener is the order of the
tests in `Receive` and `Client.OnMessage`, and at most one branch runs.

A `PlayersMoving` record leaves the hue alone: the client writes only `moving`,
`x`, `y` and `direction` (client.mjs:107-110), although the protocol's
description of PlayersMoving says the hue is overwritten as well. The model
follows the client: `Mirror.Moved` keeps the hue, and `Mirror.MoveAllKeepsRoster`
proves that the hue never changes.

## Model

| member | source | states |
|---|---|---|
| Mirror.InsertAll | client.mjs:63-88 | Definition of PlayersJoined (no contract of its own): each record in batch order becomes the entry under its id. Its properties are the InsertAll* rows below. |
| Mirror.DeleteAll | client.mjs:89-95 | Definition of PlayersLeft (no contract of its own): each listed id in batch order is removed. Its properties are the DeleteAll* rows below. |
| Mirror.MoveAll | client.mjs:96-112 | Definition of PlayersMoving (no contract of its own): known records are applied in order and the first unknown id aborts. Its properties are the MoveAll* rows below. |
| Mirror.InsertAllKeys | client.mjs:63-88 | After a PlayersJoined batch, the mirror holds exactly the old ids plus the ids the batch names. |
| Mirror.InsertAllLastWriteWins | client.mjs:65-87 | A named id's entry is exactly the last record for that id. No field is merged from an earlier record or from the old entry. |
| Mirror.InsertAllUntouched | client.mjs:65-87 | An id the batch does not name keeps its entry, or stays absent. |
| Mirror.JoinedTwiceKeepsSecond | client.mjs:68-75 | Two PlayersJoined batches for the same id: the second fully replaces the first. |
| Mirror.DeleteAllRemovesListed | client.mjs:89-95 | A PlayersLeft batch leaves exactly the old mirror minus the set of listed ids. |
| Mirror.DeleteAllIdempotent | client.mjs:89-95 | Applying the same PlayersLeft batch twice gives the same mirror as applying it once. |
| Mirror.DeleteAbsentIsNoOp | client.mjs:93 | Deleting an id that is not in the mirror leaves the mirror unchanged. |
| Mirror.Moved | client.mjs:107-110 | A moving record overwrites moving, x, y and direction, and keeps the player's id and hue. |
| Mirror.MoveAllKeepsRoster | client.mjs:96-111 | PlayersMoving never adds or removes an entry, and never changes an entry's id or hue. |
| Mirror.MoveAllAbortsIffUnknown | client.mjs:98-106 | A PlayersMoving batch aborts if and only if some record names an id not in the mirror. |
| Mirror.MoveAllStopsAtFirstUnknown | client.mjs:98-111 | When record k is the first unknown id, the records before k stay applied, no record from k on is applied, and the batch aborts. |
| Mirror.UnknownFirstLeavesMirror | client.mjs:100-106 | A batch whose first record is unknown aborts and leaves the mirror unchanged. |
| Mirror.MoveAllLastWriteWins | client.mjs:98-111 | In an all-known batch, each named player takes pose and movement from its last record and keeps its own id and hue. |
| Mirror.MoveAllUntouched | client.mjs:98-111 | A player the PlayersMoving batch does not name keeps its entry. |
| Mirror.InsertAllKeyedById | client.mjs:67-85 | PlayersJoined keeps every entry filed under its own player's id. |
| Mirror.DeleteAllKeyedById | client.mjs:91-94 | PlayersLeft keeps every entry filed under its own player's id. |
| Mirror.MoveAllKeyedById | client.mjs:100-110 | PlayersMoving keeps every entry filed under its own player's id. |
| Reconciler.Initial | client.mjs:29-31 | At start-up the client is connected and unidentified, with an empty mirror, nothing sent, ping = 0, the counter at PING_COOLDOWN (client.mjs:127) and the state invariant holding. |
| Reconciler.Receive | client.mjs:40-121 | Definition of the message listener (no contract of its own): Hello only while unidentified, then first match among PlayersJoined, PlayersLeft, PlayersMoving and Pong, otherwise close. Its properties are the Reconciler rows below. |
| Reconciler.HelloPlayer | client.mjs:48-54 | The client's own player takes id, x, y, direction and hue from the Hello, with moving = 0. |
| Reconciler.ReceiveKeepsValid | client.mjs:40-121 | Every inbound message keeps the invariant: no mirror before identification, entries keyed by id, counter in [1, 60]. |
| Reconciler.ReceiveMonotone | client.mjs:46-120 | Once identified, the client keeps its id. A closed connection stays closed. Inbound messages touch neither the ping counter nor the sent frames. |
| Reconciler.HelloIdentifies | client.mjs:46-56 | Unidentified plus a Hello: `me` becomes the Hello's id and the mirror holds exactly one entry, the client's own player. |
| Reconciler.UnidentifiedRejectsOthers | client.mjs:46-60 | Unidentified plus anything but a Hello (a failed Hello included): the connection closes and nothing else changes. |
| Reconciler.IdentifiedRejectsOthers | client.mjs:116-119 | Identified plus a message of none of the four kinds: the connection closes and nothing else changes. |
| Reconciler.PongOnlySetsPing | client.mjs:113-115 | Identified plus a Pong: only the ping changes, to now minus the echoed timestamp. |
| Reconciler.JoinedReplacesNamed | client.mjs:63-88 | Identified plus PlayersJoined: the connection stays as it was, ids are added, named ids take their last record and unnamed ids are untouched. |
| Reconciler.LeftRemovesListed | client.mjs:89-95 | Identified plus PlayersLeft: exactly the listed ids are removed, and a second application changes nothing. |
| Reconciler.MovingClosesOnUnknown | client.mjs:96-112 | Identified plus PlayersMoving: the connection closes if and only if some id is unknown. The roster and the hues are unchanged. |
| Reconciler.MovingUnknownFirst | client.mjs:100-106 | Identified plus PlayersMoving whose first id is unknown: the connection closes and the mirror is unchanged. |
| Latency.CooldownTick | client.mjs:170-177 | Disconnected: the counter is unchanged and nothing is sent. Connected: the counter stays in [1, 60], and a Ping goes out exactly when the counter was 1, which is exactly when it resets to 60. |
| Latency.ConnectedFramesClosedForm | client.mjs:125-127 | From a counter c in [1, 60], n connected frames send 0 Pings if n < c and otherwise 1 + (n - c) / 60. The counter ends at the stated value, in [1, 60]. |
| Latency.OnePingPerCooldown | client.mjs:125-127 | From the initial counter, n connected frames send exactly n / 60 Pings. |
| Intent.DirectionKeys | client.mjs:3-12 | The key table as a constant map (no contract of its own); its contents are stated by Intent.ArrowsAgreeWithWasd. |
| Intent.IntentMessage | client.mjs:185-212 | A message is sent if and only if the client is connected and identified and the event is a non-repeat on a bound key. It is AmmaMoving with the bound flag, start = 1 on press and 0 on release. |
| Intent.ReleaseMirrorsPress | client.mjs:199-212 | A release sends exactly when the press would, for the same flag, and differs only in start = 0. |
| Intent.ArrowsAgreeWithWasd | client.mjs:3-12 | The table binds exactly the eight keys. The arrow keys and WASD map to the same four flags. |
| Client.Client.constructor | client.mjs:29-31 | The new object's state is the initial state. |
| Client.Client.Close | client.mjs:43 | Closing marks the connection as closed. |
| Client.Client.OnMessage | client.mjs:40-121 | The listener's in-place update equals `Receive` on the old state, and it keeps the invariant. |
| Client.Client.ApplyJoined | client.mjs:63-88 | The record loop with overwrite-or-insert leaves the mirror equal to InsertAll of the old mirror. |
| Client.Client.ApplyLeft | client.mjs:89-95 | The delete loop leaves the mirror equal to DeleteAll of the old mirror. |
| Client.Client.ApplyMoving | client.mjs:96-112 | The loop with its early return leaves the mirror equal to MoveAll's result, and closes the connection exactly when MoveAll aborts. |
| Client.Client.Frame | client.mjs:170-177 | The frame's counter update and Ping send agree with CooldownTick, and the invariant is kept. |
| Client.Client.OnKeyDown | client.mjs:185-198 | The keydown listener appends exactly IntentMessage(..., pressed = true) to the sent frames. |
| Client.Client.OnKeyUp | client.mjs:199-212 | The keyup listener appends exactly IntentMessage(..., pressed = false) to the sent frames. |

## Left out

- Byte layout: message `verify`, field `read`/`write` and struct sizes live in
  `common.mjs`, which is not part of this model. An inbound frame arrives
  already decoded as `Inbound`. A frame that no message kind accepts, or that is
  not binary, is `Bogus`.
- Ids are unsigned 32-bit on the wire. The model uses `nat`, because the
  abstract decoder already bounds them.
- The numeric values of the movement flags come from `common.mjs`, which is not
  part of this model. The flags are a four-valued datatype.
- Floating point: positions, direction and timestamps are reals. The ping is
  `now - timestamp` without rounding.
- Hue: the client stores `hue / 256 * 360` for display. The model stores the raw
  byte, because the scaling matters only for drawing.
- Closing: the script calls `ws?.close()` and sets `ws` to undefined only when
  the later "close" event fires. The model marks the connection closed at once.
  So the frames rendered between the call and the event (which still count down
  and may send a Ping) are not modelled.
- Reconciler.Initial, Client.Client.Frame: the socket's connecting phase is not
  modelled. The model starts connected, so `Frame` always sends a Ping on the
  counter's 60th frame. In the script, `ws` is defined from creation on, but
  `ws.send` (client.mjs:175) throws while the socket is still connecting. If the
  first Ping falls due before the socket opens, that throw leaves `frame` before
  the counter is reset (client.mjs:176) and before the next frame is requested
  (client.mjs:179), so drawing and pinging stop for good. The model does not
  capture this.
- Messages after closing: the model, like the listener, does not test whether
  the connection is still open. Whether the host delivers such messages is
  not part of this model.
- `me` object aliasing: the script keeps `me` as the same object as its mirror
  entry. The model keeps only the id. If a PlayersLeft removes the client's own
  entry and a PlayersJoined re-inserts it, the script's `me` object and the new
  entry diverge. That affects only prediction and drawing.
- Non-binary frame: the script calls `close()` and then fails on `new DataView`.
  The model treats it as `Bogus`, which closes the connection and changes
  nothing else.
- Table lookup: `DIRECTION_KEYS[code]` would also find inherited object
  properties such as `toString`. Browser key codes never take those values, so
  the model's table has exactly the eight entries.
- Rendering, local prediction (`updatePlayer` with the frame's `deltaTime`,
  `previousTimestamp`), canvas drawing and the "Disconnected" label are left out
  as display and floating-point kinematics.
- WebSocket construction, event wiring, `requestAnimationFrame` scheduling and
  console logging are left out as I/O.
- The server side (registry, tick loop, broadcasts) is not part of this model.
