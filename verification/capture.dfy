/** The capture half of the mouse thread: the `rec` flag, the event log, and
    the listener callbacks that append to it. */
module Capture {
  import opened Events

  /** The two fields the callbacks read and write. */
  datatype Recorder = Recorder(rec: bool, events: seq<Event>)

  /** What a listener callback returns. The listener stops only when a
      callback returns `False`; a callback that falls off its end returns
      `None`, which keeps it running like `True`. */
  datatype Reply = ReplyTrue | ReplyFalse | ReplyNone

  predicate StopsListener(reply: Reply)
  {
    reply == ReplyFalse
  }

  /** A fresh thread: not recording, holding the loaded log (empty when there
      is none). */
  function Init(loaded: seq<Event>): (r: Recorder)
    ensures !r.rec && r.events == loaded
  {
    Recorder(false, loaded)
  }

  /** The tray's Record command switches recording on and keeps the log. */
  function Record(r: Recorder): (r': Recorder)
    ensures r'.rec && r'.events == r.events
  {
    r.(rec := true)
  }

  /** The stop gesture: the right button going down. */
  predicate IsStopGesture(button: Button, pressed: bool)
  {
    button == Right && pressed
  }

  /** Pointer moved to (x, y) at time ts. */
  function OnMove(r: Recorder, x: int, y: int, ts: int): (r': Recorder)
    ensures r'.rec == r.rec
    ensures r.rec ==> r'.events == r.events + [MoveEvent(x, y, ts)]
    ensures !r.rec ==> r'.events == r.events
  {
    if r.rec then r.(events := r.events + [MoveEvent(x, y, ts)]) else r
  }

  /** A button went down (`pressed`) or up at (x, y) at time ts. */
  function OnClick(r: Recorder, x: int, y: int, button: Button, pressed: bool, ts: int): (out: (Recorder, Reply))
    ensures r.rec && IsStopGesture(button, pressed) ==> out.0 == Recorder(false, r.events)
    ensures r.rec && !IsStopGesture(button, pressed) ==>
              out.0 == Recorder(true, r.events + [ClickEvent(x, y, button, pressed, ts)])
    ensures !r.rec ==> out.0 == r
    ensures StopsListener(out.1) <==> r.rec && IsStopGesture(button, pressed)
    ensures !pressed ==> out.1 == ReplyTrue
    ensures pressed && !StopsListener(out.1) ==> out.1 == ReplyNone
  {
    if r.rec && button == Right && pressed then
      (r.(rec := false), ReplyFalse)
    else
      var r' := if r.rec then r.(events := r.events + [ClickEvent(x, y, button, pressed, ts)]) else r;
      (r', if !pressed then ReplyTrue else ReplyNone)
  }

  /** One notification from the operating system, with the timestamp the
      callback reads from the clock. */
  datatype Notification =
    | Moved(x: int, y: int, ts: int)
    | Clicked(x: int, y: int, button: Button, pressed: bool, ts: int)

  function Deliver(r: Recorder, n: Notification): (Recorder, Reply)
  {
    match n
    case Moved(x, y, ts) => (OnMove(r, x, y, ts), ReplyNone)
    case Clicked(x, y, b, p, ts) => OnClick(r, x, y, b, p, ts)
  }

  /** The listener: delivers notifications in order until a callback returns
      `False`. Yields the final state and how many notifications it consumed. */
  function Listen(r: Recorder, ns: seq<Notification>): (out: (Recorder, nat))
    ensures out.1 <= |ns|
    decreases |ns|
  {
    if ns == [] then (r, 0)
    else
      var step := Deliver(r, ns[0]);
      if StopsListener(step.1) then (step.0, 1)
      else
        var rest := Listen(step.0, ns[1..]);
        (rest.0, rest.1 + 1)
  }

  // Reference description of a recording session, independent of the callbacks.

  predicate IsStop(n: Notification)
  {
    n.Clicked? && IsStopGesture(n.button, n.pressed)
  }

  /** Position of the first stop gesture, or |ns| when there is none. */
  function FirstStop(ns: seq<Notification>): (k: nat)
    ensures k <= |ns|
    ensures forall i :: 0 <= i < k ==> !IsStop(ns[i])
    ensures k < |ns| ==> IsStop(ns[k])
  {
    if ns == [] then 0
    else if IsStop(ns[0]) then 0
    else 1 + FirstStop(ns[1..])
  }

  /** The record a notification becomes when it is captured. */
  function AsEvent(n: Notification): Event
  {
    match n
    case Moved(x, y, ts) => MoveEvent(x, y, ts)
    case Clicked(x, y, b, p, ts) => ClickEvent(x, y, b, p, ts)
  }

  /** Everything before the first stop gesture, as records, in order. */
  function Captured(ns: seq<Notification>): (s: seq<Event>)
  {
    seq(FirstStop(ns), i requires 0 <= i < FirstStop(ns) => AsEvent(ns[i]))
  }

  /** While recording, the listener appends exactly the notifications before
      the first stop gesture, field for field; the gesture itself is not
      recorded, clears `rec` and ends the listener right after it. */
  lemma {:induction false} ListenWhileRecording(log: seq<Event>, ns: seq<Notification>)
    ensures Listen(Recorder(true, log), ns).0 == Recorder(FirstStop(ns) == |ns|, log + Captured(ns))
    ensures Listen(Recorder(true, log), ns).1 == if FirstStop(ns) < |ns| then FirstStop(ns) + 1 else |ns|
    decreases |ns|
  {
    if ns == [] {
      assert Captured(ns) == [];
    } else if IsStop(ns[0]) {
      assert Captured(ns) == [];
    } else {
      var step := Deliver(Recorder(true, log), ns[0]);
      assert step.0 == Recorder(true, log + [AsEvent(ns[0])]);
      assert !StopsListener(step.1);
      ListenWhileRecording(log + [AsEvent(ns[0])], ns[1..]);
      assert Captured(ns) == [AsEvent(ns[0])] + Captured(ns[1..]) by {
        assert FirstStop(ns) == 1 + FirstStop(ns[1..]);
        forall i | 0 <= i < FirstStop(ns)
          ensures Captured(ns)[i] == ([AsEvent(ns[0])] + Captured(ns[1..]))[i]
        {
          if i > 0 {
            assert ns[1..][i - 1] == ns[i];
          }
        }
      }
    }
  }

  /** Once `rec` is false, no move or click is appended, nothing returns
      `False`, and the listener consumes every notification. */
  lemma {:induction false} ListenWhileIdle(r: Recorder, ns: seq<Notification>)
    requires !r.rec
    ensures Listen(r, ns) == (r, |ns|)
    decreases |ns|
  {
    if ns != [] {
      ListenWhileIdle(r, ns[1..]);
    }
  }

  /** The log is append-only: whatever the listener does, the earlier
      records are kept unchanged as a prefix. */
  lemma ListenAppendOnly(r: Recorder, ns: seq<Notification>)
    ensures r.events <= Listen(r, ns).0.events
  {
    if r.rec {
      ListenWhileRecording(r.events, ns);
    } else {
      ListenWhileIdle(r, ns);
    }
  }

  /** A fresh thread with no loaded log, switched on by Record, captures
      exactly the notifications before the stop gesture, and is still
      recording at the end if and only if no stop gesture arrived. */
  lemma {:induction false} RecordingSession(ns: seq<Notification>)
    ensures Listen(Record(Init([])), ns).0.events == Captured(ns)
    ensures Listen(Record(Init([])), ns).0.rec <==> forall i :: 0 <= i < |ns| ==> !IsStop(ns[i])
  {
    ListenWhileRecording([], ns);
    assert [] + Captured(ns) == Captured(ns);
  }
}
