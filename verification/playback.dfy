/** The playback half of the mouse thread: the pointer controller is replaced
    by the list of actions it is asked to perform, and the sleeps between them
    are part of that list. */
module Replay {
  import opened Events

  /** What playback asks of the pointer controller and the thread. */
  datatype Action =
    | SetPosition(x: int, y: int)
    | Sleep(ms: int)
    | MoveBy(dx: int, dy: int)
    | Press(button: Button)
    | Release(button: Button)

  /** The controller call for one rewritten record. Clicks always use the
      left button, whatever button was recorded. */
  function Dispatch(e: Event): (a: Action)
    ensures e.MoveEvent? ==> a == MoveBy(e.x, e.y)
    ensures e.ClickEvent? && e.pressed ==> a == Press(Left)
    ensures e.ClickEvent? && !e.pressed ==> a == Release(Left)
  {
    match e
    case MoveEvent(x, y, _) => MoveBy(x, y)
    case ClickEvent(_, _, _, pressed, _) => if pressed then Press(Left) else Release(Left)
  }

  /** The playback generator, step `idx`: while `idx` is not the last
      position, sleep for the gap to the next record, overwrite the record's
      coordinates in place with the difference to the next record, and
      dispatch it. Returns the actions and the log as it is left behind. */
  function Generate(evs: seq<Event>, idx: nat): (out: (seq<Action>, seq<Event>))
    requires idx < |evs|
    ensures |out.0| == 2 * (|evs| - 1 - idx)
    ensures |out.1| == |evs|
    decreases |evs| - idx
  {
    if idx == |evs| - 1 then ([], evs)
    else
      var e := evs[idx];
      var next := evs[idx + 1];
      var e' := WithCoords(e, next.x - e.x, next.y - e.y);
      var rest := Generate(evs[idx := e'], idx + 1);
      ([Sleep(next.ts - e.ts), Dispatch(e')] + rest.0, rest.1)
  }

  /** The playback branch of the thread: position the pointer at the first
      record, then run the generator. An empty log plays nothing. */
  function Playback(events: seq<Event>): (out: (seq<Action>, seq<Event>))
    ensures |out.0| == if |events| == 0 then 0 else 2 * |events| - 1
    ensures |out.1| == |events|
  {
    if |events| == 0 then ([], events)
    else
      var g := Generate(events, 0);
      ([SetPosition(events[0].x, events[0].y)] + g.0, g.1)
  }

  // Reference definitions in terms of the original, unmodified records.

  /** The pure delta transform: every record but the last gets the
      coordinate difference to its successor; the last is kept. */
  function Deltas(events: seq<Event>): (d: seq<Event>)
  {
    seq(|events|, i requires 0 <= i < |events| => DeltaAt(events, i))
  }

  /** Record `i` of the delta transform. */
  function DeltaAt(events: seq<Event>, i: nat): Event
    requires i < |events|
  {
    if i + 1 < |events|
    then WithCoords(events[i], events[i + 1].x - events[i].x, events[i + 1].y - events[i].y)
    else events[i]
  }

  /** The action replayed for record `e` whose successor is `next`. */
  function ActionFor(e: Event, next: Event): Action
  {
    if e.MoveEvent? then MoveBy(next.x - e.x, next.y - e.y)
    else if e.pressed then Press(Left)
    else Release(Left)
  }

  /** The sleep before the action of record `i`: the gap to record `i+1`. */
  function GapAt(events: seq<Event>, i: nat): Action
    requires i + 1 < |events|
  {
    Sleep(events[i + 1].ts - events[i].ts)
  }

  /** The action replayed for record `i`, from the original records. */
  function ActionAt(events: seq<Event>, i: nat): Action
    requires i + 1 < |events|
  {
    ActionFor(events[i], events[i + 1])
  }

  /** Record `i` of a log rewritten by playback holds the coordinate
      difference to the original record `i+1`; nothing else differs. */
  predicate HoldsDeltaAt(events: seq<Event>, after: seq<Event>, i: nat)
    requires i + 1 < |events| == |after|
  {
    after[i].x == events[i + 1].x - events[i].x &&
    after[i].y == events[i + 1].y - events[i].y &&
    SameExceptCoords(events[i], after[i])
  }

  /** Sum of all sleeps in a plan. */
  function TotalSleep(plan: seq<Action>): int
  {
    if plan == [] then 0
    else (if plan[0].Sleep? then plan[0].ms else 0) + TotalSleep(plan[1..])
  }

  predicate IsInput(a: Action)
  {
    a.MoveBy? || a.Press? || a.Release?
  }

  /** Number of pointer moves, presses and releases in a plan. */
  function CountInputs(plan: seq<Action>): nat
  {
    if plan == [] then 0
    else (if IsInput(plan[0]) then 1 else 0) + CountInputs(plan[1..])
  }

  lemma TotalSleepAppend(a: seq<Action>, b: seq<Action>)
    ensures TotalSleep(a + b) == TotalSleep(a) + TotalSleep(b)
  {
    if a != [] {
      assert (a + b)[1..] == a[1..] + b;
      TotalSleepAppend(a[1..], b);
    } else {
      assert a + b == b;
    }
  }

  lemma CountInputsAppend(a: seq<Action>, b: seq<Action>)
    ensures CountInputs(a + b) == CountInputs(a) + CountInputs(b)
  {
    if a != [] {
      assert (a + b)[1..] == a[1..] + b;
      CountInputsAppend(a[1..], b);
    } else {
      assert a + b == b;
    }
  }

  /** The generator from step `idx`, given a log whose records from `idx` on
      are still the original ones: action pairs for every remaining gap, in
      order, each computed from the original coordinates; the log it leaves
      keeps the rewritten prefix and holds the pure deltas from `idx` on. */
  lemma {:induction false} GenerateShape(events: seq<Event>, evs: seq<Event>, idx: nat)
    requires idx < |evs| == |events|
    requires forall k :: idx <= k < |evs| ==> evs[k] == events[k]
    ensures forall j :: idx <= j < |evs| - 1 ==>
              Generate(evs, idx).0[2 * (j - idx)] == GapAt(events, j) &&
              Generate(evs, idx).0[2 * (j - idx) + 1] == ActionAt(events, j)
    ensures forall k :: 0 <= k < idx ==> Generate(evs, idx).1[k] == evs[k]
    ensures forall k :: idx <= k < |evs| ==> Generate(evs, idx).1[k] == Deltas(events)[k]
    decreases |evs| - idx
  {
    if idx < |evs| - 1 {
      var e := evs[idx];
      var next := evs[idx + 1];
      var e' := WithCoords(e, next.x - e.x, next.y - e.y);
      var evs' := evs[idx := e'];
      GenerateShape(events, evs', idx + 1);
      var rest := Generate(evs', idx + 1);
      var g := Generate(evs, idx);
      assert g.0 == [Sleep(next.ts - e.ts), Dispatch(e')] + rest.0;
      assert Dispatch(e') == ActionAt(events, idx);
      assert g.0[0] == GapAt(events, idx);
      forall j | idx < j < |evs| - 1
        ensures g.0[2 * (j - idx)] == GapAt(events, j)
        ensures g.0[2 * (j - idx) + 1] == ActionAt(events, j)
      {
        assert g.0[2 * (j - idx)] == rest.0[2 * (j - (idx + 1))];
        assert g.0[2 * (j - idx) + 1] == rest.0[2 * (j - (idx + 1)) + 1];
      }
      assert g.1[idx] == Deltas(events)[idx];
    }
  }

  /** Playback of a non-empty log of n records: the pointer is first placed
      at the first record's coordinates, then n-1 pairs follow in recorded
      order, the sleep ts[i+1]-ts[i] and the action for record i computed
      from the original coordinates. The last record yields no action. The
      log is left holding the pure deltas. */
  lemma PlaybackShape(events: seq<Event>)
    requires |events| > 0
    ensures Playback(events).0[0] == SetPosition(events[0].x, events[0].y)
    ensures forall i :: 0 <= i < |events| - 1 ==>
              Playback(events).0[2 * i + 1] == GapAt(events, i) &&
              Playback(events).0[2 * i + 2] == ActionAt(events, i)
    ensures Playback(events).1 == Deltas(events)
  {
    GenerateShape(events, events, 0);
    var g := Generate(events, 0);
    var p := Playback(events).0;
    forall i | 0 <= i < |events| - 1
      ensures p[2 * i + 1] == GapAt(events, i)
      ensures p[2 * i + 2] == ActionAt(events, i)
    {
      assert p[2 * i + 1] == g.0[2 * i];
      assert p[2 * i + 2] == g.0[2 * i + 1];
    }
  }

  /** After playback, every record but the last holds the difference to its
      successor, the last is unchanged, and no record changed kind,
      timestamp, button or pressed flag. */
  lemma PlaybackRewritesLog(events: seq<Event>)
    ensures |Playback(events).1| == |events|
    ensures forall i :: 0 <= i < |events| - 1 ==> HoldsDeltaAt(events, Playback(events).1, i)
    ensures |events| > 0 ==> Playback(events).1[|events| - 1] == events[|events| - 1]
  {
    if |events| > 0 {
      PlaybackShape(events);
      var after := Playback(events).1;
      forall i | 0 <= i < |events| - 1
        ensures HoldsDeltaAt(events, after, i)
      {
        assert after[i] == Deltas(events)[i];
      }
      assert after[|events| - 1] == Deltas(events)[|events| - 1];
    }
  }

  lemma {:induction false} GenerateSleep(evs: seq<Event>, idx: nat)
    requires idx < |evs|
    ensures TotalSleep(Generate(evs, idx).0) == evs[|evs| - 1].ts - evs[idx].ts
    decreases |evs| - idx
  {
    if idx < |evs| - 1 {
      var e := evs[idx];
      var next := evs[idx + 1];
      var evs' := evs[idx := WithCoords(e, next.x - e.x, next.y - e.y)];
      GenerateSleep(evs', idx + 1);
      var rest := Generate(evs', idx + 1);
      TotalSleepAppend([Sleep(next.ts - e.ts), Dispatch(evs'[idx])], rest.0);
      assert TotalSleep([Dispatch(evs'[idx])]) == 0 by {
        assert [Dispatch(evs'[idx])][1..] == [];
      }
      assert [Sleep(next.ts - e.ts), Dispatch(evs'[idx])][1..] == [Dispatch(evs'[idx])];
    }
  }

  /** The sleeps of a playback add up to the recording's span. */
  lemma PlaybackSleepTotal(events: seq<Event>)
    requires |events| > 0
    ensures TotalSleep(Playback(events).0) == events[|events| - 1].ts - events[0].ts
  {
    var g := Generate(events, 0);
    GenerateSleep(events, 0);
    TotalSleepAppend([SetPosition(events[0].x, events[0].y)], g.0);
    assert [SetPosition(events[0].x, events[0].y)][1..] == [];
  }

  lemma {:induction false} GenerateInputs(evs: seq<Event>, idx: nat)
    requires idx < |evs|
    ensures CountInputs(Generate(evs, idx).0) == |evs| - 1 - idx
    decreases |evs| - idx
  {
    if idx < |evs| - 1 {
      var e := evs[idx];
      var next := evs[idx + 1];
      var evs' := evs[idx := WithCoords(e, next.x - e.x, next.y - e.y)];
      GenerateInputs(evs', idx + 1);
      var rest := Generate(evs', idx + 1);
      CountInputsAppend([Sleep(next.ts - e.ts), Dispatch(evs'[idx])], rest.0);
      assert [Sleep(next.ts - e.ts), Dispatch(evs'[idx])][1..] == [Dispatch(evs'[idx])];
      assert [Dispatch(evs'[idx])][1..] == [];
    }
  }

  /** Exactly n-1 moves, presses or releases are emitted for n records. */
  lemma PlaybackInputCount(events: seq<Event>)
    requires |events| > 0
    ensures CountInputs(Playback(events).0) == |events| - 1
  {
    var g := Generate(events, 0);
    GenerateInputs(events, 0);
    CountInputsAppend([SetPosition(events[0].x, events[0].y)], g.0);
    assert [SetPosition(events[0].x, events[0].y)][1..] == [];
  }

  /** Every press and release in a playback is of the left button, whatever
      button was recorded, and the right-button record is never replayed as
      itself. */
  lemma PlaybackUsesLeftButton(events: seq<Event>)
    ensures forall k :: 0 <= k < |Playback(events).0| ==>
              (Playback(events).0[k].Press? ==> Playback(events).0[k].button == Left) &&
              (Playback(events).0[k].Release? ==> Playback(events).0[k].button == Left)
  {
    if |events| > 0 {
      PlaybackShape(events);
      var p := Playback(events).0;
      forall k | 0 <= k < |p|
        ensures (p[k].Press? ==> p[k].button == Left) && (p[k].Release? ==> p[k].button == Left)
      {
        if k > 0 {
          var i := (k - 1) / 2;
          if k % 2 == 0 {
            assert p[k] == ActionAt(events, i);
          } else {
            assert p[k] == GapAt(events, i);
          }
        }
      }
    }
  }

  /** Two logs that differ only in the kind, button or pressed flag of their
      last record are played back identically. */
  lemma SamePlanUpToLast(a: seq<Event>, b: seq<Event>)
    requires 0 < |a| == |b|
    requires forall i :: 0 <= i < |a| - 1 ==> a[i] == b[i]
    requires a[|a| - 1].x == b[|b| - 1].x && a[|a| - 1].y == b[|b| - 1].y && a[|a| - 1].ts == b[|b| - 1].ts
    ensures Playback(a).0 == Playback(b).0
  {
    PlaybackShape(a);
    PlaybackShape(b);
    var pa := Playback(a).0;
    var pb := Playback(b).0;
    forall k | 0 <= k < |pa|
      ensures pa[k] == pb[k]
    {
      if k > 0 {
        var i := (k - 1) / 2;
        assert a[i] == b[i];
        assert a[i + 1].x == b[i + 1].x && a[i + 1].y == b[i + 1].y && a[i + 1].ts == b[i + 1].ts;
        if k % 2 == 0 {
          assert pa[k] == ActionAt(a, i) == ActionAt(b, i) == pb[k];
        } else {
          assert pa[k] == GapAt(a, i) == GapAt(b, i) == pb[k];
        }
      }
    }
  }

  /** The last record is only a reference for the final gap: replacing it
      with any record of the same position and timestamp (a different kind,
      button or pressed flag) leaves the plan unchanged. */
  lemma LastEventNotEmitted(prefix: seq<Event>, last: Event, other: Event)
    requires other.x == last.x && other.y == last.y && other.ts == last.ts
    ensures Playback(prefix + [last]).0 == Playback(prefix + [other]).0
  {
    var a := prefix + [last];
    var b := prefix + [other];
    assert forall i :: 0 <= i < |a| - 1 ==> a[i] == prefix[i] == b[i];
    SamePlanUpToLast(a, b);
  }

  /** Because the log is rewritten in place, playing it a second time starts
      from the first delta rather than the first recorded position. */
  lemma SecondPlaybackStartsAtDelta(events: seq<Event>)
    requires |events| >= 2
    ensures Playback(Playback(events).1).0[0] ==
              SetPosition(events[1].x - events[0].x, events[1].y - events[0].y)
  {
    PlaybackShape(events);
    PlaybackShape(Playback(events).1);
  }

  /** A second playback of a rewritten log moves by differences of
      differences. */
  lemma SecondPlaybackMovesByDoubleDeltas(events: seq<Event>)
    requires |events| >= 3
    requires events[0].MoveEvent?
    ensures Playback(Playback(events).1).0[2] ==
              MoveBy((events[2].x - events[1].x) - (events[1].x - events[0].x),
                     (events[2].y - events[1].y) - (events[1].y - events[0].y))
  {
    PlaybackShape(events);
    PlaybackShape(Playback(events).1);
  }

  /** Which branch the thread's run takes. */
  datatype RunOutcome = Listening | Replayed(plan: seq<Action>, after: seq<Event>)

  /** The thread's run, entered once when the thread starts: with a loaded
      log it plays it back (once woken), without one it runs the capture
      listener. */
  function Run(events: seq<Event>): (out: RunOutcome)
    ensures out.Listening? <==> |events| == 0
    ensures out.Replayed? ==> |out.plan| == 2 * |events| - 1 && out.after == Deltas(events)
  {
    if |events| > 0 then
      PlaybackShape(events);
      Replayed(Playback(events).0, Playback(events).1)
    else Listening
  }

  /** The tray's Play command sends its wake-up only for a non-empty log:
      the same emptiness test that chose the branch of `Run` when the thread
      started. The branch is not chosen again, so a log recorded in this
      session is not replayed by it. */
  function Play(events: seq<Event>): (wakes: bool)
    ensures wakes <==> Run(events).Replayed?
  {
    |events| > 0
  }
}
