# iowatch watch-face engine, modelled in Dafny

A model of the engine behind the iowatch Android Wear watch face
(`WatchFace.Engine`). The engine does three things:

- **Redraw timer.** While the face is visible and not in ambient mode, a
  handler message `MSG_UPDATE_TIME` redraws the face once per second. Each
  delivery invalidates the face and, if the timer should still run,
  re-sends itself with a delay that ends on the next wall-clock second.
- **Time-zone receiver.** A flag keeps the time-zone broadcast receiver
  registered exactly once while the face is visible.
- **Frame composition.** `onDraw` computes the hand positions from the
  calendar fields and paints an ordered list of layers. Which layers it
  paints depends on ambient mode.

Modules:

- `Wrappers` (`wrappers.dfy`): the `Option` type used for the message slot.
- `Timer` (`timer.dfy`): `shouldTimerBeRunning` and the reschedule delay
  `1000 - (t % 1000)`, with its bounds and its alignment to second
  boundaries.
- `Hands` (`hands.dfy`): the calendar fields and the second, minute and hour
  hand positions as exact fractions of a turn (`real`). The positions are
  proved equal to the elapsed fraction of the minute, hour and half day.
- `Drawing` (`drawing.dfy`): the draw operations as abstract tags and the
  `Frame` function giving the operations `onDraw` emits. Lemmas count what a
  frame contains in each mode.
- `EngineSpec` (`engine_spec.dfy`): the engine state as a value, each
  callback as a function on it, the invariant every reachable state keeps,
  and the callbacks' promises as lemmas.
- `WatchFaceEngine` (`engine.dfy`): class `Engine`. Its fields are the ones
  the callbacks update: `visible`, `ambient`, `registered`, `pending`, the
  white paint's `strokeWidth`, and counters of `invalidate()`,
  register and unregister calls. Each callback is a method whose new state
  is the matching `EngineSpec` function of the old one. `OnDraw` builds the
  frame with the source's tick loop and is proved equal to `Drawing.Frame`.

Inputs the source reads from the platform are parameters:
`System.currentTimeMillis()` is `now: nat`, and the calendar's fields are a
`ClockFields` value.

The handler's message queue is one slot, `pending: Option<nat>`, holding
the requested delay. This loses nothing: `updateTimer` removes every message before sending,
`onDestroy` only removes, and the handler sends only after the looper has
taken its own message off the queue. `Engine.Deliver` models
the looper's delivery. It empties the slot and then runs the handler body
`Engine.HandleUpdateTime`.

## Model

| member | source | states |
|---|---|---|
| Timer.ShouldTimerBeRunning | wear/src/main/java/fruitiex/iowatch/WatchFace.java:257-259 | the timer should run exactly when the face is visible and not in ambient mode |
| Timer.NextSecondDelay | wear/src/main/java/fruitiex/iowatch/WatchFace.java:61-63 | the reschedule delay for epoch time t ≥ 0 lies in [1, 1000], t + delay is a multiple of 1000, and it is the boundary of the second after t's |
| Timer.NoEarlierSecondBoundary | wear/src/main/java/fruitiex/iowatch/WatchFace.java:61-64 | no second boundary lies strictly between t and t + delay, so the redraw lands on the first boundary |
| Timer.SameBoundaryWithinSecond | wear/src/main/java/fruitiex/iowatch/WatchFace.java:61-64 | a later time in the same second aims at the same boundary: waking k ms later shortens the delay by exactly k |
| Timer.NoDrift | wear/src/main/java/fruitiex/iowatch/WatchFace.java:61-64 | a redraw that fires on its boundary reschedules a full 1000 ms later, so the cadence does not drift |
| Hands.SecondTurn | wear/src/main/java/fruitiex/iowatch/WatchFace.java:187-189 | the second hand's turn (sec + ms/1000)/60 equals the elapsed milliseconds of the minute over 60000 |
| Hands.MinuteTurn | wear/src/main/java/fruitiex/iowatch/WatchFace.java:190-191 | the minute hand's turn equals the elapsed milliseconds of the hour over 3600000 |
| Hands.HourTurn | wear/src/main/java/fruitiex/iowatch/WatchFace.java:192-193 | the hour hand's turn, from the 12-hour HOUR field, equals the elapsed milliseconds of the half day over 43200000 |
| Hands.TurnsInRange | wear/src/main/java/fruitiex/iowatch/WatchFace.java:187-193 | for calendar fields in range, every hand's turn lies in [0, 1) |
| Hands.HandsSweepContinuously | wear/src/main/java/fruitiex/iowatch/WatchFace.java:190-192 | the minute fraction adds the second hand's turn to the minute; the hour fraction adds the minute hand's turn to the hour |
| Hands.TurnsAtTwelve | wear/src/main/java/fruitiex/iowatch/WatchFace.java:187-193 | at 0:00:00.000 all three hands point straight up (turn 0) |
| Hands.TurnsAtHalfPast | wear/src/main/java/fruitiex/iowatch/WatchFace.java:187-193 | at 0:30:00.000 the minute hand's turn is 1/2 and the hour hand's is 1/24 |
| Hands.FieldsAt | wear/src/main/java/fruitiex/iowatch/WatchFace.java:185-192 | splitting local milliseconds into HOUR (of 12), MINUTE, SECOND and MILLISECOND gives fields in range |
| Hands.MinuteFieldsAtMillis | wear/src/main/java/fruitiex/iowatch/WatchFace.java:185-188 | the split SECOND and MILLISECOND fields recombine to the time within the minute |
| Hands.HourFieldsAtMillis | wear/src/main/java/fruitiex/iowatch/WatchFace.java:185-190 | the split MINUTE, SECOND and MILLISECOND fields recombine to the time within the hour |
| Hands.HalfDayFieldsAtMillis | wear/src/main/java/fruitiex/iowatch/WatchFace.java:185-192 | the split fields recombine to the time within the half day |
| Hands.MillisFieldsRoundTrip | wear/src/main/java/fruitiex/iowatch/WatchFace.java:185-192 | fields in range are exactly the split of their own time |
| Hands.SecondTurnOverTime | wear/src/main/java/fruitiex/iowatch/WatchFace.java:185-189 | over wall-clock time the second hand is the elapsed fraction of the minute, and it is 0 exactly on minute boundaries |
| Hands.MinuteTurnOverTime | wear/src/main/java/fruitiex/iowatch/WatchFace.java:185-191 | over wall-clock time the minute hand is the elapsed fraction of the hour, and it is 0 exactly on hour boundaries |
| Hands.HourTurnOverTime | wear/src/main/java/fruitiex/iowatch/WatchFace.java:185-193 | over wall-clock time the hour hand is the elapsed fraction of the half day, and it is 0 exactly on twelve-hour boundaries |
| Hands.SecondTurnMonotonic | wear/src/main/java/fruitiex/iowatch/WatchFace.java:185-189 | within one minute a later time puts the second hand strictly further round |
| Hands.MinuteTurnMonotonic | wear/src/main/java/fruitiex/iowatch/WatchFace.java:185-191 | within one hour a later time puts the minute hand strictly further round |
| Hands.HourTurnMonotonic | wear/src/main/java/fruitiex/iowatch/WatchFace.java:185-193 | within one half day a later time puts the hour hand strictly further round |
| Drawing.StrokeFor | wear/src/main/java/fruitiex/iowatch/WatchFace.java:97-101 | the white stroke is thinStroke exactly in ambient mode and thickStroke exactly otherwise |
| Drawing.Ticks | wear/src/main/java/fruitiex/iowatch/WatchFace.java:219-227 | four tick marks, the i-th at index i and i quarter turns |
| Drawing.Frame | wear/src/main/java/fruitiex/iowatch/WatchFace.java:170-231 | a frame has 12 operations in active mode and 8 in ambient mode, starts with the black fill, and ends with the four ticks and the border arc |
| Drawing.FrameContents | wear/src/main/java/fruitiex/iowatch/WatchFace.java:199-230 | a frame holds one second hand and the three background layers in active mode and none of them in ambient mode; in both modes one minute hand, one hour hand, four ticks and one border arc |
| Drawing.FrameLayout | wear/src/main/java/fruitiex/iowatch/WatchFace.java:199-214 | in active mode positions 1-4 are the coloured canvas fill, the outer ring, the inner face and the second hand; in both modes the minute hand and then the hour hand follow, at the calendar fields' turns |
| EngineSpec.UpdateTimer | wear/src/main/java/fruitiex/iowatch/WatchFace.java:250-255 | after updateTimer one message is pending iff visible and not ambient, due at once, and nothing else changes |
| EngineSpec.RegisterReceiver | wear/src/main/java/fruitiex/iowatch/WatchFace.java:233-240 | afterwards the flag is set, the platform was called once iff the flag was clear, and nothing else changes |
| EngineSpec.UnregisterReceiver | wear/src/main/java/fruitiex/iowatch/WatchFace.java:242-248 | afterwards the flag is clear, the platform was called once iff the flag was set, and nothing else changes |
| EngineSpec.HandleUpdateTime | wear/src/main/java/fruitiex/iowatch/WatchFace.java:56-66 | the handler invalidates once and re-sends iff the timer should run, with a delay of 1 to 1000 ms ending on the next second boundary; nothing else changes |
| EngineSpec.Deliver | wear/src/main/java/fruitiex/iowatch/WatchFace.java:54-69 | with nothing pending delivery changes nothing; otherwise one more invalidation and a message pending again iff the timer should run |
| EngineSpec.OnVisibilityChanged | wear/src/main/java/fruitiex/iowatch/WatchFace.java:106-120 | afterwards visible and registered both equal the new visibility, and a message is pending iff visible and not ambient |
| EngineSpec.OnAmbientModeChanged | wear/src/main/java/fruitiex/iowatch/WatchFace.java:93-105 | afterwards the stroke matches the new mode, one more invalidation is recorded, and a message is pending iff visible and not ambient |
| EngineSpec.OnDestroy | wear/src/main/java/fruitiex/iowatch/WatchFace.java:159-163 | afterwards nothing is pending and nothing else changed |
| EngineSpec.Invalidate | wear/src/main/java/fruitiex/iowatch/WatchFace.java:71-84 | onTimeTick and the time-zone receiver record one more invalidation and change nothing else |
| EngineSpec.UpdateTimerIdempotent | wear/src/main/java/fruitiex/iowatch/WatchFace.java:250-255 | scheduling while a message is pending first cancels it: a second updateTimer in a row changes nothing |
| EngineSpec.DestroyCancels | wear/src/main/java/fruitiex/iowatch/WatchFace.java:159-163 | after onDestroy no delivery can follow, and a second onDestroy changes nothing |
| EngineSpec.DeliverReschedules | wear/src/main/java/fruitiex/iowatch/WatchFace.java:54-69 | a delivery reschedules with a delay of 1 to 1000 ms ending on a second boundary, and changes nothing but the slot and the invalidation count |
| EngineSpec.ReceiverToggleIdempotent | wear/src/main/java/fruitiex/iowatch/WatchFace.java:233-248 | a second registerReceiver or unregisterReceiver in a row makes no further platform call and changes nothing |
| EngineSpec.VisibilityChangeRegistersAndUpdates | wear/src/main/java/fruitiex/iowatch/WatchFace.java:106-120 | onVisibilityChanged(v) calls the platform's register only when becoming visible unregistered and unregister only when becoming hidden registered, leaves mode, stroke and invalidations alone, and a repeated event changes nothing |
| EngineSpec.AmbientModeChangeStrokeAndTimer | wear/src/main/java/fruitiex/iowatch/WatchFace.java:93-105 | onAmbientModeChanged(a) sets the stroke to 4 when a and 8 otherwise; entering ambient leaves no message and nothing to deliver; visibility and receiver are untouched |
| EngineSpec.CreatedConsistent | wear/src/main/java/fruitiex/iowatch/WatchFace.java:122-157 | the state after onCreate satisfies the invariant and nothing is pending |
| EngineSpec.StepConsistent | wear/src/main/java/fruitiex/iowatch/WatchFace.java:54-163 | every callback keeps the invariant: registered iff visible, never registered twice with the platform, stroke matches the mode, a message pending only while the timer should run |
| EngineSpec.StepLive | wear/src/main/java/fruitiex/iowatch/WatchFace.java:54-120 | every callback other than onDestroy keeps a message pending exactly while the timer should run |
| EngineSpec.RunConsistent | wear/src/main/java/fruitiex/iowatch/WatchFace.java:54-163 | any sequence of callbacks from a consistent state ends in a consistent state |
| EngineSpec.RunLive | wear/src/main/java/fruitiex/iowatch/WatchFace.java:54-120 | without onDestroy, any sequence of callbacks keeps the timer live |
| EngineSpec.ReachableConsistent | wear/src/main/java/fruitiex/iowatch/WatchFace.java:54-163 | every state reachable from onCreate is consistent |
| WatchFaceEngine.Engine.constructor | wear/src/main/java/fruitiex/iowatch/WatchFace.java:122-157 | onCreate: thick white stroke, receiver not registered, nothing pending; the invariant holds |
| WatchFaceEngine.Engine.ShouldTimerBeRunning | wear/src/main/java/fruitiex/iowatch/WatchFace.java:257-259 | the engine's timer should run exactly when it is visible and not in ambient mode |
| WatchFaceEngine.Engine.UpdateTimer | wear/src/main/java/fruitiex/iowatch/WatchFace.java:250-255 | the new state is updateTimer of the old one |
| WatchFaceEngine.Engine.RegisterReceiver | wear/src/main/java/fruitiex/iowatch/WatchFace.java:233-240 | the new state is registerReceiver of the old one |
| WatchFaceEngine.Engine.UnregisterReceiver | wear/src/main/java/fruitiex/iowatch/WatchFace.java:242-248 | the new state is unregisterReceiver of the old one |
| WatchFaceEngine.Engine.HandleUpdateTime | wear/src/main/java/fruitiex/iowatch/WatchFace.java:56-66 | the handler body's new state: one more invalidation and, if the timer should run, a message delayed to the next second |
| WatchFaceEngine.Engine.Deliver | wear/src/main/java/fruitiex/iowatch/WatchFace.java:54-69 | delivery of the pending message keeps the invariant and gives the state the spec's delivery describes |
| WatchFaceEngine.Engine.OnVisibilityChanged | wear/src/main/java/fruitiex/iowatch/WatchFace.java:106-120 | keeps the invariant; the new state is onVisibilityChanged of the old one |
| WatchFaceEngine.Engine.OnAmbientModeChanged | wear/src/main/java/fruitiex/iowatch/WatchFace.java:93-105 | keeps the invariant; the new state is onAmbientModeChanged of the old one |
| WatchFaceEngine.Engine.OnDestroy | wear/src/main/java/fruitiex/iowatch/WatchFace.java:159-163 | keeps the invariant; removes the pending message and changes nothing else |
| WatchFaceEngine.Engine.OnTimeTick | wear/src/main/java/fruitiex/iowatch/WatchFace.java:80-84 | keeps the invariant; one more invalidation and nothing else |
| WatchFaceEngine.Engine.OnTimeZoneChanged | wear/src/main/java/fruitiex/iowatch/WatchFace.java:71-77 | keeps the invariant; called only while the receiver is registered, it records one more invalidation and nothing else |
| WatchFaceEngine.Engine.OnDraw | wear/src/main/java/fruitiex/iowatch/WatchFace.java:169-231 | the operations emitted, tick loop included, are exactly the frame for the engine's mode and white stroke width |

## Left out

- `WatchFaceConfig.java`, the settings activity: UI glue over a `Values` store that is not part of this model.
- `onPropertiesChanged`: it only copies two booleans out of a `Bundle`, which nothing in the core reads.
- `formatTwoDigitNumber`: unused, and it only calls `String.format`.
- Trigonometry and geometry in `onDraw`: `Math.sin`/`Math.cos`, pixel coordinates, radii, hand lengths and colours. Hand and tick positions are exact turn fractions; the `2*pi` factor and single-precision `float` rounding are not modelled.
- Android plumbing: `Handler`/`Message` internals, `BroadcastReceiver` and `IntentFilter`, `Canvas` and `Paint` construction, the `WatchFaceStyle` builder, and `super` calls. Calls into the platform appear only as counters (`invalidations`, `registerCalls`, `unregisterCalls`).
- `Calendar` and `TimeZone` resolution: the calendar fields are inputs, and the time-zone reset in `onVisibilityChanged` and in the receiver is not modelled. `Hands.FieldsAt` splits local wall-clock milliseconds, with the zone offset already applied.
- The `what` switch in `handleMessage`: only `MSG_UPDATE_TIME` is ever sent, so the model has no other message.
- The framework's own visibility and ambient state: the model sets `visible` and `ambient` at the start of the matching callback, which is when `isVisible()` and `isInAmbientMode()` already report the new value.
- The initial state assumes the framework creates the engine hidden and interactive.
- `whitePaint` is a static field shared by every engine of the service; the model gives each engine its own stroke width.
- Negative epoch times and 64-bit `long` overflow: `now` is a `nat`. Java's `%` on a negative time would break the delay bound.
- A time-zone broadcast reaches the engine only while the receiver is registered, as the platform guarantees; the model does not cover a broadcast that is already being delivered when the receiver is unregistered.
- Timing: the slot records the requested delay, not a due time. The model does not check that the looper delivers the message after that delay.
