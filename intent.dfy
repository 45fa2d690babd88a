/**
  Movement intents: the fixed table from keyboard key codes to movement flags, and
  the AmmaMoving message a key press or release turns into.
*/
module Intent {
  import opened Protocol

  /** Arrow keys and WASD, each bound to one movement flag. */
  const DirectionKeys: map<string, Moving> := map[
    "ArrowLeft" := TurningLeft,
    "ArrowRight" := TurningRight,
    "ArrowUp" := MovingForward,
    "ArrowDown" := MovingBackward,
    "KeyA" := TurningLeft,
    "KeyD" := TurningRight,
    "KeyW" := MovingForward,
    "KeyS" := MovingBackward
  ]

  /** A keyboard event: its physical key code and whether it is an auto-repeat. */
  datatype KeyEvent = KeyEvent(code: string, repeat: bool)

  /**
    The message a key event sends, if any: only while connected and identified,
    only for a first (non-repeat) event, only for a bound key. A press starts the
    bound intent (start = 1), a release stops it (start = 0).
  */
  function IntentMessage(connected: bool, identified: bool, e: KeyEvent, pressed: bool): (r: Option<Outbound>)
    ensures r.Some? <==> connected && identified && !e.repeat && e.code in DirectionKeys
    ensures r.Some? ==> r.value.AmmaMoving? && r.value.direction == DirectionKeys[e.code]
    ensures r.Some? ==> (r.value.start == 1 <==> pressed) && (r.value.start == 0 <==> !pressed)
  {
    if connected && identified && !e.repeat && e.code in DirectionKeys then
      Some(AmmaMoving(if pressed then 1 else 0, DirectionKeys[e.code]))
    else
      None
  }

  /**
    A release sends a message exactly when the matching press would, for the same
    flag, and the two differ only in start: the release stops what the press started.
  */
  lemma ReleaseMirrorsPress(connected: bool, identified: bool, e: KeyEvent)
    ensures IntentMessage(connected, identified, e, true).Some? <==> IntentMessage(connected, identified, e, false).Some?
    ensures IntentMessage(connected, identified, e, true).Some? ==>
              IntentMessage(connected, identified, e, false).value ==
              IntentMessage(connected, identified, e, true).value.(start := 0)
  {
  }

  /** Every flag is reachable from both key sets: the arrow keys and WASD agree. */
  lemma ArrowsAgreeWithWasd()
    ensures DirectionKeys.Keys == {"ArrowLeft", "ArrowRight", "ArrowUp", "ArrowDown", "KeyA", "KeyD", "KeyW", "KeyS"}
    ensures DirectionKeys["ArrowLeft"] == DirectionKeys["KeyA"] == TurningLeft
    ensures DirectionKeys["ArrowRight"] == DirectionKeys["KeyD"] == TurningRight
    ensures DirectionKeys["ArrowUp"] == DirectionKeys["KeyW"] == MovingForward
    ensures DirectionKeys["ArrowDown"] == DirectionKeys["KeyS"] == MovingBackward
  {
  }
}
