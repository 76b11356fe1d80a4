/** The recorded event shape of the mouse recorder: one record per captured
    move or click, tagged MOVE (0) or CLICK (1), with the pointer position and
    a millisecond timestamp. */
module Events {

  /** Mouse buttons as the input library reports them; `Other` stands for the
      platform-specific extra buttons. The recorder stores the button's value,
      which identifies the button, so the model stores the button itself. */
  datatype Button = Left | Middle | Right | Other(code: int)

  /** Type tags written into every event record. */
  const MOVE: int := 0
  const CLICK: int := 1

  /** A recorded event. Both kinds carry `x`, `y` and `ts`; only clicks carry
      the button and whether it went down (`pressed`) or up. */
  datatype Event =
    | MoveEvent(x: int, y: int, ts: int)
    | ClickEvent(x: int, y: int, button: Button, pressed: bool, ts: int)

  /** The `type` field of the stored record. */
  function TypeTag(e: Event): (t: int)
    ensures t == MOVE || t == CLICK
    ensures t == MOVE <==> e.MoveEvent?
  {
    if e.MoveEvent? then MOVE else CLICK
  }

  /** Two records agree on every field except the coordinates. */
  predicate SameExceptCoords(a: Event, b: Event)
  {
    TypeTag(a) == TypeTag(b) && a.ts == b.ts &&
    (a.ClickEvent? ==> b.ClickEvent? && a.button == b.button && a.pressed == b.pressed)
  }

  /** The record with its `x` and `y` fields overwritten and nothing else touched. */
  function WithCoords(e: Event, x: int, y: int): (r: Event)
    ensures r.x == x && r.y == y
    ensures SameExceptCoords(e, r)
  {
    e.(x := x, y := y)
  }
}
