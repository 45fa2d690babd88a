/**
  The client reconciler as a state machine: the state it keeps between events,
  and what one inbound message does to it.

  The client is Unidentified until a Hello arrives (`me` is None) and Identified
  afterwards; closing the connection is recorded by `connected` becoming false.
*/
module Reconciler {
  import opened Protocol
  import opened Mirror
  import Latency

  /** Everything the client keeps between events. `sent` lists every frame sent so far, oldest first. */
  datatype ClientState = ClientState(
    connected: bool,
    me: Option<Id>,
    players: Players,
    ping: real,
    pingCooldown: int,
    sent: seq<Outbound>)

  /**
    The state right after start-up: connected, unidentified, an empty mirror, a
    round-trip time of zero and a full ping counter.
  */
  function Initial(): (s: ClientState)
    ensures Valid(s) && s.connected && s.me.None? && s.players == map[] && s.sent == []
    ensures s.ping == 0.0 && s.pingCooldown == Latency.PING_COOLDOWN
  {
    ClientState(true, None, map[], 0.0, Latency.PING_COOLDOWN, [])
  }

  /**
    The state invariant: nothing is mirrored before the handshake, every entry is
    filed under its own id, and the ping counter is within [1, PING_COOLDOWN].
  */
  ghost predicate Valid(s: ClientState)
  {
    && (s.me.None? ==> s.players == map[])
    && KeyedById(s.players)
    && 1 <= s.pingCooldown <= Latency.PING_COOLDOWN
  }

  /** The player entry a Hello creates: its own id and pose, no movement. */
  function HelloPlayer(msg: Inbound): (p: Player)
    requires msg.Hello?
    ensures p.id == msg.id && p.x == msg.x && p.y == msg.y && p.direction == msg.direction
    ensures p.hue == msg.hue && p.moving == 0
  {
    Player(msg.id, msg.x, msg.y, msg.direction, 0, msg.hue)
  }

  /**
    One inbound message, received at local time `now`.

    Unidentified: only a Hello is accepted; it sets `me` and puts the client's own
    player in the mirror. Anything else closes the connection.

    Identified: the message is tried as PlayersJoined, PlayersLeft, PlayersMoving
    and Pong, in that order, and the first kind that matches is applied. A message
    of no such kind closes the connection, and so does a PlayersMoving record for
    an unknown player.
  */
  function Receive(s: ClientState, msg: Inbound, now: real): ClientState
  {
    if s.me.None? then
      if msg.Hello? then
        s.(me := Some(msg.id), players := s.players[msg.id := HelloPlayer(msg)])
      else
        s.(connected := false)
    else if msg.PlayersJoined? then
      s.(players := InsertAll(s.players, msg.joined))
    else if msg.PlayersLeft? then
      s.(players := DeleteAll(s.players, msg.left))
    else if msg.PlayersMoving? then
      var outcome := MoveAll(s.players, msg.moved);
      s.(players := outcome.mirror, connected := s.connected && !outcome.aborted)
    else if msg.Pong? then
      s.(ping := now - msg.timestamp)
    else
      s.(connected := false)
  }

  /** Receiving a message keeps the state invariant. */
  lemma ReceiveKeepsValid(s: ClientState, msg: Inbound, now: real)
    requires Valid(s)
    ensures Valid(Receive(s, msg, now))
  {
    if s.me.Some? {
      match msg
      case PlayersJoined(recs) => InsertAllKeyedById(s.players, recs);
      case PlayersLeft(ids) => DeleteAllKeyedById(s.players, ids);
      case PlayersMoving(recs) => MoveAllKeyedById(s.players, recs);
      case _ =>
    }
  }

  /**
    Once identified, the client stays identified under the same id; a closed
    connection is never reopened; the ping counter and the sent frames are not
    touched by inbound messages.
  */
  lemma ReceiveMonotone(s: ClientState, msg: Inbound, now: real)
    ensures s.me.Some? ==> Receive(s, msg, now).me == s.me
    ensures !s.connected ==> !Receive(s, msg, now).connected
    ensures Receive(s, msg, now).pingCooldown == s.pingCooldown
    ensures Receive(s, msg, now).sent == s.sent
  {
  }

  /**
    Handshake: in the unidentified state, a Hello makes the client identified
    under the Hello's id, and the mirror then holds exactly the client's own
    player, built from the Hello's fields with no movement.
  */
  lemma HelloIdentifies(s: ClientState, msg: Inbound, now: real)
    requires Valid(s) && s.me.None? && msg.Hello?
    ensures Receive(s, msg, now).me == Some(msg.id)
    ensures Receive(s, msg, now).players == map[msg.id := HelloPlayer(msg)]
    ensures Receive(s, msg, now).connected == s.connected
  {
  }

  /**
    In the unidentified state, anything but a Hello (a failed Hello decodes as
    Bogus) closes the connection and leaves `me` and the mirror unchanged.
  */
  lemma UnidentifiedRejectsOthers(s: ClientState, msg: Inbound, now: real)
    requires s.me.None? && !msg.Hello?
    ensures Receive(s, msg, now) == s.(connected := false)
  {
  }

  /**
    Once identified, a message of none of the four accepted kinds (a second Hello,
    or a frame no kind accepts) closes the connection and changes nothing else.
  */
  lemma IdentifiedRejectsOthers(s: ClientState, msg: Inbound, now: real)
    requires s.me.Some? && (msg.Hello? || msg.Bogus?)
    ensures Receive(s, msg, now) == s.(connected := false)
  {
  }

  /** Once identified, a Pong only sets the round-trip time to now minus the echoed timestamp. */
  lemma PongOnlySetsPing(s: ClientState, ts: real, now: real)
    requires s.me.Some?
    ensures Receive(s, Pong(ts), now) == s.(ping := now - ts)
  {
  }

  /**
    Once identified, a PlayersJoined batch leaves every player it does not name
    as it was, and gives every player it names exactly its last record there.
  */
  lemma JoinedReplacesNamed(s: ClientState, recs: seq<Player>, now: real, id: Id)
    requires s.me.Some?
    ensures Receive(s, PlayersJoined(recs), now).connected == s.connected
    ensures Receive(s, PlayersJoined(recs), now).players.Keys == s.players.Keys + Ids(recs)
    ensures (forall j :: 0 <= j < |recs| ==> recs[j].id != id) && id in s.players ==>
              Receive(s, PlayersJoined(recs), now).players[id] == s.players[id]
    ensures forall i :: 0 <= i < |recs| && recs[i].id == id && (forall j :: i < j < |recs| ==> recs[j].id != id) ==>
              Receive(s, PlayersJoined(recs), now).players[id] == recs[i]
  {
    InsertAllKeys(s.players, recs);
    if forall j :: 0 <= j < |recs| ==> recs[j].id != id {
      InsertAllUntouched(s.players, recs, id);
    }
    forall i | 0 <= i < |recs| && recs[i].id == id && (forall j :: i < j < |recs| ==> recs[j].id != id)
      ensures Receive(s, PlayersJoined(recs), now).players[id] == recs[i]
    {
      InsertAllLastWriteWins(s.players, recs, i);
    }
  }

  /**
    Once identified, a PlayersLeft batch removes exactly the listed ids, keeps the
    connection open, and applying it twice is the same as applying it once.
  */
  lemma LeftRemovesListed(s: ClientState, ids: seq<Id>, now: real)
    requires s.me.Some?
    ensures Receive(s, PlayersLeft(ids), now) == s.(players := s.players - (set id | id in ids))
    ensures Receive(Receive(s, PlayersLeft(ids), now), PlayersLeft(ids), now) == Receive(s, PlayersLeft(ids), now)
  {
    DeleteAllRemovesListed(s.players, ids);
    DeleteAllIdempotent(s.players, ids);
  }

  /**
    Once identified, a PlayersMoving batch closes the connection exactly when it
    names an unknown player, never adds or removes a player, and never changes a
    player's hue.
  */
  lemma MovingClosesOnUnknown(s: ClientState, recs: seq<Player>, now: real)
    requires s.me.Some? && s.connected
    ensures !Receive(s, PlayersMoving(recs), now).connected <==> exists j :: 0 <= j < |recs| && recs[j].id !in s.players
    ensures Receive(s, PlayersMoving(recs), now).players.Keys == s.players.Keys
    ensures forall id :: id in s.players ==> Receive(s, PlayersMoving(recs), now).players[id].hue == s.players[id].hue
  {
    MoveAllAbortsIffUnknown(s.players, recs);
    MoveAllKeepsRoster(s.players, recs);
  }

  /**
    Once identified, a PlayersMoving batch whose first record names an unknown
    player closes the connection and leaves the mirror unchanged.
  */
  lemma MovingUnknownFirst(s: ClientState, recs: seq<Player>, now: real)
    requires s.me.Some? && recs != [] && recs[0].id !in s.players
    ensures Receive(s, PlayersMoving(recs), now) == s.(connected := false)
  {
  }
}
