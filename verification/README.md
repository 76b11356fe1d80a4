# Cobalt mouse recorder — record/playback model

Cobalt is a tray application that records global mouse moves and clicks
with timestamps and replays them through a synthetic pointer controller.
This project models the engine inside its `MouseThread`:

- **Events** (`events.dfy`): the event record — a MOVE (tag 0) or CLICK
  (tag 1) record with `x`, `y`, a millisecond `ts`, and for clicks the
  button and the `pressed` flag.
- **Capture** (`capture.dfy`): the `(rec, events)` state machine driven by
  `record`, `on_move` and `on_click`, the callback return values that stop
  the listener, and a model of the listener delivering notifications until
  a callback returns `False`. A reference description, `Captured` (every
  notification before the first right-button press), is proved equal to
  what the callbacks build.
- **Replay** (`playback.dfy`): the playback branch of `run` and its
  `next_event` generator. The controller is replaced by the list of actions
  it is asked to perform: `SetPosition`, `Sleep`, `MoveBy`, `Press` and
  `Release`. `Generate` rewrites the log in place, left to right, exactly as
  the generator does. `Deltas` (the pure delta transform) and `ActionFor`
  (the action computed from the original coordinates) are independent
  reference definitions, and the lemmas connect the two.
- **ReplayLoop** (`replay_loop.dfy`): the same pass written as a loop over
  an array of records that overwrites them in place. It is proved equal to
  the functional plan and to the pure delta transform.

Timestamps are inputs: each notification carries the time its callback
would read from the clock. Sleeps are integer entries in the plan. The
stored log after playback is returned alongside the plan.

Behaviour of the code that the model keeps:
- The stop gesture is fixed to the right button, with no way to configure it.
- Every click is replayed with the left button, whatever button was recorded.
- Each sleep is the raw difference `ts[i+1] - ts[i]`, with no clamping at zero.
- Playback overwrites the stored records with deltas.
- The thread chooses between playback and capture once, when it starts, from
  the log loaded at launch.

## Model

| member | source | states |
|---|---|---|
| Events.TypeTag | Cobalt.py:24-25 | each record is tagged MOVE (0) or CLICK (1), and the tag is MOVE exactly for move records |
| Capture.Init | Cobalt.py:27-31 | a new thread is not recording and holds the loaded log (empty when there is none) |
| Capture.Record | Cobalt.py:96-97 | Record switches recording on and leaves the log as it was |
| Capture.OnMove | Cobalt.py:36-41 | while recording, a move appends exactly one MOVE record with x, y and the timestamp; while not recording, the log is unchanged; `rec` is never changed |
| Capture.OnClick | Cobalt.py:43-55 | while recording, a right-button press clears `rec`, appends nothing and returns False; any other click while recording appends one CLICK record with x, y, button, pressed flag and timestamp; without recording nothing changes; every release returns True; False is returned only for the stop gesture, and any other press returns None |
| Capture.FirstStop | Cobalt.py:44-47 | the index of the first right-button press: no notification before it is a stop gesture, and the notification at it is one |
| Capture.Listen | Cobalt.py:93-94 | the listener consumes at most the notifications it is given; which ones it consumes and what it records is stated by Capture.ListenWhileRecording and Capture.ListenWhileIdle |
| Capture.ListenWhileRecording | Cobalt.py:36-55 | from a recording state the listener appends, field for field, exactly the notifications before the first stop gesture, keeps the earlier log as a prefix, ends with `rec` false if and only if a stop gesture occurred, and consumes the notifications up to and including it |
| Capture.ListenWhileIdle | Cobalt.py:37-37 | once `rec` is false, no later move or click is appended and the listener is never stopped |
| Capture.ListenAppendOnly | Cobalt.py:38-53 | whatever notifications arrive, the earlier records stay unchanged as a prefix of the log |
| Capture.RecordingSession | Cobalt.py:93-97 | a thread started without a log and switched on by Record captures exactly the notifications before the stop gesture, and is still recording at the end if and only if no stop gesture arrived |
| Replay.Generate | Cobalt.py:71-79 | from position idx the generator yields a plan of length 2(n-1-idx) and a log of the same length as its input; what the plan holds is stated by Replay.GenerateShape |
| Replay.Dispatch | Cobalt.py:81-89 | a move record becomes a move by its stored x and y; a click record becomes a left-button press when pressed and a left-button release otherwise |
| Replay.Playback | Cobalt.py:68-89 | an empty log plays nothing; a log of n records yields 2n-1 plan entries and a stored log of the same length |
| Replay.GenerateShape | Cobalt.py:71-79 | while the records from idx on are still the originals, every remaining step sleeps for the original gap and acts on the original coordinates, the already rewritten prefix is kept, and the records from idx on end as the pure deltas |
| Replay.PlaybackShape | Cobalt.py:68-89 | the pointer is first set to the first record's position; then, for each i < n-1 and in recorded order, a sleep of ts[i+1]-ts[i] and the action for record i computed from the original coordinates; the stored log ends as the pure delta transform |
| Replay.PlaybackRewritesLog | Cobalt.py:72-76 | after playback every record but the last holds the x and y difference to its original successor, the last record is unchanged, and no record changes its type, ts, button or pressed flag |
| Replay.PlaybackSleepTotal | Cobalt.py:72-74 | the sleeps of a playback add up to ts[n-1]-ts[0] |
| Replay.PlaybackInputCount | Cobalt.py:72-89 | exactly n-1 moves, presses or releases are emitted for n records |
| Replay.PlaybackUsesLeftButton | Cobalt.py:85-89 | every press and release emitted is of the left button, whatever button was recorded |
| Replay.SamePlanUpToLast | Cobalt.py:72-77 | two logs that differ only in the last record's type, button or pressed flag produce the same plan |
| Replay.LastEventNotEmitted | Cobalt.py:72-77 | the last record is never emitted as an action: replacing it by any record with the same position and timestamp leaves the plan unchanged |
| Replay.SecondPlaybackStartsAtDelta | Cobalt.py:69-76 | for a log of two or more records, playing the rewritten log a second time starts at the first delta instead of the first recorded position |
| Replay.SecondPlaybackMovesByDoubleDeltas | Cobalt.py:72-84 | when the first record is a move, the first move of a second playback is by the difference of the first two deltas |
| Replay.Run | Cobalt.py:60-94 | the thread, once at start, runs the listener if and only if the loaded log is empty; otherwise it replays 2n-1 plan entries and leaves the log holding the deltas |
| Replay.Play | Cobalt.py:99-101 | Play's guard is the same emptiness test as the branch choice of Replay.Run: it sends a wake-up exactly when the log is non-empty |
| ReplayLoop.ReplayInPlace | Cobalt.py:68-89 | the in-place pass over an array of records produces the playback plan and leaves the array holding the pure delta transform: each step reads its successor before that successor is rewritten |
| ReplayLoop.PlanMatches | Cobalt.py:68-77 | any plan that starts at the first position and holds, in recorded order, the original gap and action for every record but the last, is the playback plan |

## Left out

- The Qt window, tray menu and application object (Cobalt.py:13-20, 107-143): presentation only.
- `QThread`, `QMutex` and `QWaitCondition` (Cobalt.py:33-34, 65-66, 91, 101): the wait for the Play signal is concurrency; `Play` only states when the wake-up is sent, and a wake-up sent before the thread waits is not modelled.
- Replay.Run: the branch is fixed when the thread starts (Cobalt.py:61, 139), so a log recorded in a session is replayed only after it is saved on close (Cobalt.py:121, 104) and loaded at the next launch (Cobalt.py:138); a Play in the recording session wakes nothing. The model does not join these sessions into one run; save and load are file I/O (below).
- The pynput `Listener` and `Controller` (Cobalt.py:62, 93-94): operating-system calls. The listener is modelled as a sequence of notifications delivered until a callback returns False. The controller is modelled as the list of actions it receives.
- `QDateTime.currentDateTime()` (Cobalt.py:41, 53): clock reads; timestamps arrive with each notification.
- `QThread.msleep` (Cobalt.py:74): real time is not modelled, and neither is its behaviour for a negative argument; a sleep is an integer in the plan.
- `save` and loading the `record` file through JSON (Cobalt.py:103-104, 138): file I/O. A loaded file whose records have an unknown type tag is not modelled; the datatype admits only MOVE and CLICK records.
- `on_scroll` (Cobalt.py:57-58): it does nothing.
- Button values: the code stores `button.value`, whose numbers differ between platforms; the model stores the button itself, which the value identifies.
