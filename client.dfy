/**
  The browser client as an object: the closure variables of the client script
  (`me`, the `players` map, `ping`, `pingCooldown`, the socket) become fields, and
  each event listener becomes a method that updates them in place. Every method
  is proved to do what the Reconciler, Latency and Intent specifications say.
*/
module Client {
  import opened Protocol
  import opened Mirror
  import opened Reconciler
  import Latency
  import Intent

  /** The frames an optional outbound message adds to the socket. */
  function Sends(o: Option<Outbound>): seq<Outbound>
  {
    if o.Some? then [o.value] else []
  }

  class Client {
    var connected: bool          // the socket is still open (not yet closed by the client)
    var me: Option<Id>           // the client's own id, once a Hello has arrived
    var players: Players         // the mirror of the server's player registry
    var ping: real               // the last measured round-trip time
    var pingCooldown: int        // frames left until the next Ping
    var sent: seq<Outbound>      // every frame written to the socket, oldest first

    /** The object's state as a value. */
    function State(): ClientState
      reads this
    {
      ClientState(connected, me, players, ping, pingCooldown, sent)
    }

    ghost predicate Valid()
      reads this
    {
      Reconciler.Valid(State())
    }

    constructor ()
      ensures Valid() && State() == Initial()
    {
      connected := true;
      me := None;
      players := map[];
      ping := 0.0;
      pingCooldown := Latency.PING_COOLDOWN;
      sent := [];
    }

    /** Closing the socket. */
    method Close()
      modifies this`connected
      ensures !connected
    {
      connected := false;
    }

    /** The "message" listener: one inbound frame, received at local time `now`. */
    method OnMessage(msg: Inbound, now: real)
      requires Valid()
      modifies this
      ensures Valid()
      ensures State() == Receive(old(State()), msg, now)
    {
      ReceiveKeepsValid(State(), msg, now);
      if me.None? {
        if msg.Hello? {
          me := Some(msg.id);
          players := players[msg.id := HelloPlayer(msg)];
        } else {
          Close();
        }
      } else {
        if msg.PlayersJoined? {
          ApplyJoined(msg.joined);
        } else if msg.PlayersLeft? {
          ApplyLeft(msg.left);
        } else if msg.PlayersMoving? {
          ApplyMoving(msg.moved);
        } else if msg.Pong? {
          ping := now - msg.timestamp;
        } else {
          Close();
        }
      }
    }

    /**
      PlayersJoined, record by record: a known player has every field overwritten,
      an unknown one is inserted.
    */
    method ApplyJoined(recs: seq<Player>)
      requires KeyedById(players)
      modifies this`players
      ensures players == InsertAll(old(players), recs)
    {
      for i := 0 to |recs|
        invariant KeyedById(players)
        invariant InsertAll(players, recs[i..]) == InsertAll(old(players), recs)
      {
        var r := recs[i];
        assert recs[i..][0] == r && recs[i..][1..] == recs[i + 1..];
        if r.id in players {
          var p := players[r.id];
          p := p.(x := r.x);
          p := p.(y := r.y);
          p := p.(direction := r.direction);
          p := p.(moving := r.moving);
          p := p.(hue := r.hue);
          players := players[r.id := p];
        } else {
          players := players[r.id := Player(r.id, r.x, r.y, r.direction, r.moving, r.hue)];
        }
      }
    }

    /** PlayersLeft, id by id: each listed player is removed; an absent one is skipped. */
    method ApplyLeft(ids: seq<Id>)
      modifies this`players
      ensures players == DeleteAll(old(players), ids)
    {
      for i := 0 to |ids|
        invariant DeleteAll(players, ids[i..]) == DeleteAll(old(players), ids)
      {
        assert ids[i..][0] == ids[i] && ids[i..][1..] == ids[i + 1..];
        players := players - {ids[i]};
      }
    }

    /**
      PlayersMoving, record by record: a known player has moving, position and
      direction overwritten; the first unknown player closes the socket and stops
      the loop.
    */
    method ApplyMoving(recs: seq<Player>)
      modifies this`players, this`connected
      ensures players == MoveAll(old(players), recs).mirror
      ensures connected == (old(connected) && !MoveAll(old(players), recs).aborted)
    {
      var i := 0;
      while i < |recs|
        invariant 0 <= i <= |recs|
        invariant connected == old(connected)
        invariant MoveAll(players, recs[i..]) == MoveAll(old(players), recs)
      {
        var r := recs[i];
        assert recs[i..][0] == r && recs[i..][1..] == recs[i + 1..];
        if r.id !in players {
          Close();
          return;
        }
        var p := players[r.id];
        p := p.(moving := r.moving);
        p := p.(x := r.x);
        p := p.(y := r.y);
        p := p.(direction := r.direction);
        players := players[r.id := p];
        i := i + 1;
      }
    }

    /**
      The ping bookkeeping of one rendered frame, at local time `now`: while
      connected, count down and send a Ping stamped `now` when the counter runs out.
    */
    method Frame(now: real)
      requires Valid()
      modifies this`pingCooldown, this`sent
      ensures Valid()
      ensures pingCooldown == Latency.CooldownTick(connected, old(pingCooldown)).cooldown
      ensures sent == old(sent) + if Latency.CooldownTick(connected, old(pingCooldown)).sendPing then [Ping(now)] else []
    {
      if connected {
        pingCooldown := pingCooldown - 1;
        if pingCooldown <= 0 {
          sent := sent + [Ping(now)];
          pingCooldown := Latency.PING_COOLDOWN;
        }
      }
    }

    /** The "keydown" listener. */
    method OnKeyDown(e: Intent.KeyEvent)
      modifies this`sent
      ensures sent == old(sent) + Sends(Intent.IntentMessage(connected, me.Some?, e, true))
    {
      if connected && me.Some? {
        if !e.repeat {
          if e.code in Intent.DirectionKeys {
            var direction := Intent.DirectionKeys[e.code];
            sent := sent + [AmmaMoving(1, direction)];
          }
        }
      }
    }

    /** The "keyup" listener. */
    method OnKeyUp(e: Intent.KeyEvent)
      modifies this`sent
      ensures sent == old(sent) + Sends(Intent.IntentMessage(connected, me.Some?, e, false))
    {
      if connected && me.Some? {
        if !e.repeat {
          if e.code in Intent.DirectionKeys {
            var direction := Intent.DirectionKeys[e.code];
            sent := sent + [AmmaMoving(0, direction)];
          }
        }
      }
    }
  }
}
