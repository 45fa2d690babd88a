/**
  The latency probe's pacing: a frame counter that sends one Ping every
  PING_COOLDOWN frames while the connection is up.
*/
module Latency {

  /** Frames between two Pings. */
  const PING_COOLDOWN: int := 60

  /** What one rendered frame does to the counter, and whether it sends a Ping. */
  datatype Tick = Tick(cooldown: int, sendPing: bool)

  /**
    One frame. While disconnected the counter is left alone and nothing is sent;
    while connected the counter drops by one and, on reaching zero or below, a
    Ping is sent and the counter restarts at PING_COOLDOWN.
  */
  function CooldownTick(connected: bool, cooldown: int): (t: Tick)
    ensures !connected ==> t == Tick(cooldown, false)
    ensures connected && 1 <= cooldown <= PING_COOLDOWN ==> 1 <= t.cooldown <= PING_COOLDOWN
    ensures connected && 1 <= cooldown <= PING_COOLDOWN ==>
              (t.sendPing <==> cooldown == 1) && (t.sendPing <==> t.cooldown == PING_COOLDOWN)
  {
    if !connected then Tick(cooldown, false)
    else if cooldown - 1 <= 0 then Tick(PING_COOLDOWN, true)
    else Tick(cooldown - 1, false)
  }

  /** The counter after n connected frames, and the number of Pings they sent. */
  datatype Probe = Probe(cooldown: int, pings: nat)

  function ConnectedFrames(cooldown: int, n: nat): Probe
    decreases n
  {
    if n == 0 then Probe(cooldown, 0)
    else
      var t := CooldownTick(true, cooldown);
      var rest := ConnectedFrames(t.cooldown, n - 1);
      Probe(rest.cooldown, rest.pings + if t.sendPing then 1 else 0)
  }

  /**
    Starting from a counter c in [1, PING_COOLDOWN], the first Ping goes out on
    frame c and then one every PING_COOLDOWN frames; the counter stays in
    [1, PING_COOLDOWN] throughout.
  */
  lemma {:induction false} ConnectedFramesClosedForm(c: int, n: nat)
    requires 1 <= c <= PING_COOLDOWN
    ensures ConnectedFrames(c, n).pings == if n < c then 0 else 1 + (n - c) / PING_COOLDOWN
    ensures ConnectedFrames(c, n).cooldown ==
              if n < c then c - n else PING_COOLDOWN - (n - c) % PING_COOLDOWN
    ensures 1 <= ConnectedFrames(c, n).cooldown <= PING_COOLDOWN
    decreases n
  {
    if n > 0 {
      var t := CooldownTick(true, c);
      ConnectedFramesClosedForm(t.cooldown, n - 1);
      if c == 1 && n - 1 >= PING_COOLDOWN {
        var q := n - 1 - PING_COOLDOWN;
        assert (q / PING_COOLDOWN) + 1 == (n - 1) / PING_COOLDOWN;
        assert q % PING_COOLDOWN == (n - 1) % PING_COOLDOWN;
      }
    }
  }

  /** From a fresh counter, n connected frames send exactly n / PING_COOLDOWN Pings. */
  lemma OnePingPerCooldown(n: nat)
    ensures ConnectedFrames(PING_COOLDOWN, n).pings == n / PING_COOLDOWN
  {
    ConnectedFramesClosedForm(PING_COOLDOWN, n);
  }
}
