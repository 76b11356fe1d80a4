/** The playback branch as the thread runs it: one pass over the log held in
    an array, overwriting each record's coordinates in place, left to right,
    and emitting the controller calls as it goes. */
module ReplayLoop {
  import opened Events
  import opened Replay

  /** Replays `events` and returns the plan together with the log as the
      pass leaves it. Each step reads its successor before that successor is
      rewritten, so every delta comes from original coordinates. */
  method ReplayInPlace(events: seq<Event>) returns (plan: seq<Action>, after: seq<Event>)
    ensures plan == Playback(events).0
    ensures after == Playback(events).1
    ensures after == Deltas(events)
  {
    if |events| == 0 {
      assert Playback(events) == ([], events);
      return [], events;
    }
    var n := |events|;

    var a := new Event[n](i requires 0 <= i < n => events[i]);
    plan := [SetPosition(a[0].x, a[0].y)];
    var idx := 0;
    while idx < a.Length
      invariant 0 <= idx <= a.Length == n
      invariant forall k :: 0 <= k < idx ==> a[k] == DeltaAt(events, k)
      invariant forall k :: idx <= k < n ==> a[k] == events[k]
      invariant |plan| == if idx < n then 2 * idx + 1 else 2 * n - 1
      invariant plan[0] == SetPosition(events[0].x, events[0].y)
      invariant forall i :: 0 <= i < idx && i < n - 1 ==>
                  plan[2 * i + 1] == GapAt(events, i) && plan[2 * i + 2] == ActionAt(events, i)
    {
      if idx < n - 1 {
        var gap := a[idx + 1].ts - a[idx].ts;
        var e := a[idx];
        var next := a[idx + 1];
        a[idx] := WithCoords(e, next.x - e.x, next.y - e.y);
        assert a[idx] == DeltaAt(events, idx);
        assert Dispatch(a[idx]) == ActionAt(events, idx);
        plan := plan + [Sleep(gap), Dispatch(a[idx])];
      }
      idx := idx + 1;
    }
    after := a[..];
    assert after == Deltas(events);
    PlaybackShape(events);
    PlanMatches(events, plan);
  }

  /** A plan with the shape playback promises is the playback plan. */
  lemma PlanMatches(events: seq<Event>, plan: seq<Action>)
    requires |events| > 0
    requires |plan| == 2 * |events| - 1
    requires plan[0] == SetPosition(events[0].x, events[0].y)
    requires forall i :: 0 <= i < |events| - 1 ==>
               plan[2 * i + 1] == GapAt(events, i) && plan[2 * i + 2] == ActionAt(events, i)
    ensures plan == Playback(events).0
  {
    PlaybackShape(events);
    var p := Playback(events).0;
    forall k | 0 <= k < |p|
      ensures plan[k] == p[k]
    {
      if k > 0 {
        var i := (k - 1) / 2;
        assert 0 <= i < |events| - 1;
        if k % 2 == 0 {
          assert k == 2 * i + 2;
          assert plan[k] == ActionAt(events, i) == p[k];
        } else {
          assert k == 2 * i + 1;
          assert plan[k] == GapAt(events, i) == p[k];
        }
      }
    }
  }
}
