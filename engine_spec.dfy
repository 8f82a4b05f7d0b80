/**
 * The watch-face engine's state as a value, and the effect of each callback
 * on it. The class in WatchFaceEngine is proved to follow these functions;
 * the lemmas here state what the callbacks promise.
 */
module EngineSpec {
  import opened Wrappers
  import opened Timer
  import opened Drawing

  /**
   * visible and ambient are the framework's isVisible()/isInAmbientMode();
   * registered is mRegisteredTimeZoneReceiver; pending is the handler's queue
   * of MSG_UPDATE_TIME messages collapsed to one slot holding the requested
   * delay; strokeWidth is the white paint's; the three counters record the
   * calls to invalidate(), registerReceiver and unregisterReceiver.
   */
  datatype EngineState = EngineState(
    visible: bool,
    ambient: bool,
    registered: bool,
    pending: Option<nat>,
    strokeWidth: real,
    invalidations: nat,
    registerCalls: nat,
    unregisterCalls: nat)

  predicate Running(s: EngineState)
  {
    ShouldTimerBeRunning(s.visible, s.ambient)
  }

  /** The state after onCreate: hidden, interactive, thick white stroke, nothing queued. */
  function Created(): EngineState
  {
    EngineState(false, false, false, None, THICK_STROKE, 0, 0, 0)
  }

  /**
   * updateTimer: remove every pending message, then send an immediate one if
   * the timer should run. Afterwards one message is pending iff visible and
   * not ambient, due at once; nothing else changes.
   */
  function UpdateTimer(s: EngineState): (r: EngineState)
    ensures r.pending.Some? <==> s.visible && !s.ambient
    ensures r.pending.Some? ==> r.pending.value == 0
    ensures r.(pending := s.pending) == s
  {
    s.(pending := if Running(s) then Some(0) else None)
  }

  /**
   * registerReceiver: afterwards the flag is set; the platform is called
   * once, and only if the flag was clear.
   */
  function RegisterReceiver(s: EngineState): (r: EngineState)
    ensures r.registered
    ensures r.registerCalls == s.registerCalls + (if s.registered then 0 else 1)
    ensures r.(registered := s.registered, registerCalls := s.registerCalls) == s
  {
    if s.registered then s
    else s.(registered := true, registerCalls := s.registerCalls + 1)
  }

  /**
   * unregisterReceiver: afterwards the flag is clear; the platform is called
   * once, and only if the flag was set.
   */
  function UnregisterReceiver(s: EngineState): (r: EngineState)
    ensures !r.registered
    ensures r.unregisterCalls == s.unregisterCalls + (if s.registered then 1 else 0)
    ensures r.(registered := s.registered, unregisterCalls := s.unregisterCalls) == s
  {
    if !s.registered then s
    else s.(registered := false, unregisterCalls := s.unregisterCalls + 1)
  }

  /**
   * handleMessage for MSG_UPDATE_TIME at epoch time `now`. The message being
   * handled has already left the queue, so the slot is empty. It invalidates
   * once and re-sends iff the timer should run, delayed to the next second
   * boundary; nothing else changes.
   */
  function HandleUpdateTime(s: EngineState, now: nat): (r: EngineState)
    requires s.pending.None?
    ensures r.invalidations == s.invalidations + 1
    ensures r.pending.Some? <==> Running(s)
    ensures r.pending.Some? ==>
      && 1 <= r.pending.value <= INTERACTIVE_UPDATE_RATE_MS
      && (now + r.pending.value) % INTERACTIVE_UPDATE_RATE_MS == 0
      && (now + r.pending.value) / INTERACTIVE_UPDATE_RATE_MS == now / INTERACTIVE_UPDATE_RATE_MS + 1
    ensures r.(pending := None, invalidations := s.invalidations) == s
  {
    var s' := s.(invalidations := s.invalidations + 1);
    if Running(s') then s'.(pending := Some(NextSecondDelay(now))) else s'
  }

  /**
   * The looper delivering the pending message, if there is one, at epoch
   * time `now`: with nothing pending nothing happens; otherwise the message
   * leaves the queue and the handler runs.
   */
  function Deliver(s: EngineState, now: nat): (r: EngineState)
    ensures s.pending.None? ==> r == s
    ensures s.pending.Some? ==> r.invalidations == s.invalidations + 1
    ensures s.pending.Some? ==> (r.pending.Some? <==> Running(s))
  {
    match s.pending
    case None => s
    case Some(_) => HandleUpdateTime(s.(pending := None), now)
  }

  /**
   * onVisibilityChanged: the framework's new visibility, the receiver, then
   * updateTimer. Afterwards registered == visible == the new visibility, and
   * a message is pending iff visible and not ambient.
   */
  function OnVisibilityChanged(s: EngineState, visible: bool): (r: EngineState)
    ensures r.visible == visible && r.registered == visible
    ensures r.pending.Some? <==> visible && !s.ambient
  {
    var s' := s.(visible := visible);
    UpdateTimer(if visible then RegisterReceiver(s') else UnregisterReceiver(s'))
  }

  /**
   * onAmbientModeChanged: the framework's new mode, the stroke width,
   * invalidate, then updateTimer. Afterwards the stroke matches the mode, one
   * more invalidation is recorded, and a message is pending iff visible and
   * not ambient.
   */
  function OnAmbientModeChanged(s: EngineState, ambient: bool): (r: EngineState)
    ensures r.ambient == ambient && r.strokeWidth == StrokeFor(ambient)
    ensures r.invalidations == s.invalidations + 1
    ensures r.pending.Some? <==> s.visible && !ambient
  {
    UpdateTimer(s.(ambient := ambient,
                   strokeWidth := if ambient then THIN_STROKE else THICK_STROKE,
                   invalidations := s.invalidations + 1))
  }

  /** onDestroy: remove every pending message and change nothing else. */
  function OnDestroy(s: EngineState): (r: EngineState)
    ensures r.pending.None?
    ensures r.(pending := s.pending) == s
  {
    s.(pending := None)
  }

  /** onTimeTick and the time-zone receiver's onReceive: one more invalidation and nothing else. */
  function Invalidate(s: EngineState): (r: EngineState)
    ensures r.invalidations == s.invalidations + 1
    ensures r.(invalidations := s.invalidations) == s
  {
    s.(invalidations := s.invalidations + 1)
  }

  /**
   * The events the framework delivers to the engine. A time-zone broadcast
   * reaches the receiver only while it is registered.
   */
  datatype Event =
    | VisibilityChange(visible: bool)
    | AmbientModeChange(ambient: bool)
    | UpdateTimeDue(now: nat)
    | TimeTick
    | TimeZoneChange
    | Destroy

  function Step(s: EngineState, e: Event): EngineState
  {
    match e
    case VisibilityChange(v) => OnVisibilityChanged(s, v)
    case AmbientModeChange(a) => OnAmbientModeChanged(s, a)
    case UpdateTimeDue(now) => Deliver(s, now)
    case TimeTick => Invalidate(s)
    case TimeZoneChange => if s.registered then Invalidate(s) else s
    case Destroy => OnDestroy(s)
  }

  function Run(s: EngineState, events: seq<Event>): EngineState
    decreases |events|
  {
    if events == [] then s else Run(Step(s, events[0]), events[1..])
  }

  /**
   * What every reachable state satisfies: the receiver is registered exactly
   * while visible, and registered with the platform exactly once more than
   * it was unregistered when the flag is set (never twice); the white stroke
   * matches the mode; and a redraw is pending only while the timer should run.
   */
  predicate Consistent(s: EngineState)
  {
    && s.registered == s.visible
    && s.registerCalls == s.unregisterCalls + (if s.registered then 1 else 0)
    && s.strokeWidth == StrokeFor(s.ambient)
    && (s.pending.Some? ==> Running(s))
  }

  /** The timer is live: a redraw is pending exactly while the timer should run. */
  predicate Live(s: EngineState)
  {
    s.pending.Some? <==> Running(s)
  }

  /**
   * Scheduling while a message is pending first cancels it: a second
   * updateTimer in a row changes nothing more.
   */
  lemma UpdateTimerIdempotent(s: EngineState)
    ensures UpdateTimer(UpdateTimer(s)) == UpdateTimer(s)
  {
  }

  /**
   * After onDestroy nothing is left for the looper to deliver, and a second
   * onDestroy changes nothing.
   */
  lemma DestroyCancels(s: EngineState, now: nat)
    ensures Deliver(OnDestroy(s), now) == OnDestroy(s)
    ensures OnDestroy(OnDestroy(s)) == OnDestroy(s)
  {
  }

  /**
   * Delivering MSG_UPDATE_TIME invalidates exactly once; it leaves a message
   * pending iff the timer should still run, delayed to the next second
   * boundary after `now`; nothing else changes.
   */
  lemma DeliverReschedules(s: EngineState, now: nat)
    requires s.pending.Some?
    ensures Deliver(s, now).pending.Some? ==>
      var d := Deliver(s, now).pending.value;
      1 <= d <= INTERACTIVE_UPDATE_RATE_MS && (now + d) % INTERACTIVE_UPDATE_RATE_MS == 0
    ensures Deliver(s, now).(pending := s.pending, invalidations := s.invalidations) == s
  {
  }

  /**
   * A second registerReceiver or unregisterReceiver in a row makes no
   * further platform call and changes nothing.
   */
  lemma ReceiverToggleIdempotent(s: EngineState)
    ensures RegisterReceiver(RegisterReceiver(s)) == RegisterReceiver(s)
    ensures UnregisterReceiver(UnregisterReceiver(s)) == UnregisterReceiver(s)
  {
  }

  /**
   * onVisibilityChanged(v) calls the platform's registerReceiver only when
   * becoming visible unregistered and unregisterReceiver only when becoming
   * hidden registered; it leaves the mode, the stroke and the invalidations
   * alone, and a repeated visibility event changes nothing more.
   */
  lemma VisibilityChangeRegistersAndUpdates(s: EngineState, v: bool)
    ensures OnVisibilityChanged(s, v).registerCalls == s.registerCalls + (if v && !s.registered then 1 else 0)
    ensures OnVisibilityChanged(s, v).unregisterCalls == s.unregisterCalls + (if !v && s.registered then 1 else 0)
    ensures OnVisibilityChanged(s, v).invalidations == s.invalidations
    ensures OnVisibilityChanged(s, v).ambient == s.ambient
    ensures OnVisibilityChanged(s, v).strokeWidth == s.strokeWidth
    ensures OnVisibilityChanged(OnVisibilityChanged(s, v), v) == OnVisibilityChanged(s, v)
  {
  }

  /**
   * onAmbientModeChanged(a) sets the white stroke to 4 when `a` and to 8
   * otherwise; entering ambient leaves no message, so no redraw fires
   * afterwards; the receiver is untouched.
   */
  lemma AmbientModeChangeStrokeAndTimer(s: EngineState, a: bool, now: nat)
    ensures OnAmbientModeChanged(s, a).strokeWidth == (if a then 4.0 else 8.0)
    ensures a ==> OnAmbientModeChanged(s, a).pending.None?
    ensures a ==> Deliver(OnAmbientModeChanged(s, a), now) == OnAmbientModeChanged(s, a)
    ensures OnAmbientModeChanged(s, a).registered == s.registered
    ensures OnAmbientModeChanged(s, a).visible == s.visible
  {
  }

  lemma CreatedConsistent()
    ensures Consistent(Created()) && Live(Created())
  {
  }

  /** Every event keeps the invariant. */
  lemma StepConsistent(s: EngineState, e: Event)
    requires Consistent(s)
    ensures Consistent(Step(s, e))
  {
  }

  /**
   * Until the engine is destroyed the timer stays live: every event other
   * than onDestroy leaves a redraw pending exactly while it should run.
   */
  lemma StepLive(s: EngineState, e: Event)
    requires Live(s)
    requires !e.Destroy?
    ensures Live(Step(s, e))
  {
  }

  /** Every sequence of events from a consistent state ends in a consistent state. */
  lemma {:induction false} RunConsistent(s: EngineState, events: seq<Event>)
    requires Consistent(s)
    ensures Consistent(Run(s, events))
    decreases |events|
  {
    if events != [] {
      StepConsistent(s, events[0]);
      RunConsistent(Step(s, events[0]), events[1..]);
    }
  }

  /** Without onDestroy the timer stays live through any sequence of events. */
  lemma {:induction false} RunLive(s: EngineState, events: seq<Event>)
    requires Live(s)
    requires forall i :: 0 <= i < |events| ==> !events[i].Destroy?
    ensures Live(Run(s, events))
    decreases |events|
  {
    if events != [] {
      StepLive(s, events[0]);
      RunLive(Step(s, events[0]), events[1..]);
    }
  }

  /** Every state reachable from onCreate is consistent. */
  lemma ReachableConsistent(events: seq<Event>)
    ensures Consistent(Run(Created(), events))
  {
    CreatedConsistent();
    RunConsistent(Created(), events);
  }
}
