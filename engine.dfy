/**
 * WatchFace.Engine as a class: the fields the callbacks update in place, and
 * each callback as a method proved to follow its function in EngineSpec.
 */
module WatchFaceEngine {
  import opened Wrappers
  import opened Timer
  import opened Hands
  import opened Drawing
  import Spec = EngineSpec

  class Engine {
    /** isVisible(): set by the framework before onVisibilityChanged runs. */
    var visible: bool
    /** isInAmbientMode(): set by the framework before onAmbientModeChanged runs. */
    var ambient: bool
    /** mRegisteredTimeZoneReceiver. */
    var registered: bool
    /** mUpdateTimeHandler's MSG_UPDATE_TIME queue, as one slot holding the delay. */
    var pending: Option<nat>
    /** whitePaint's stroke width. */
    var strokeWidth: real
    /** Calls to invalidate(). */
    var invalidations: nat
    /** Calls to the platform's registerReceiver and unregisterReceiver. */
    var registerCalls: nat
    var unregisterCalls: nat

    function State(): Spec.EngineState
      reads this
    {
      Spec.EngineState(visible, ambient, registered, pending, strokeWidth,
                       invalidations, registerCalls, unregisterCalls)
    }

    ghost predicate Valid()
      reads this
    {
      Spec.Consistent(State())
    }

    /** onCreate: the white paint starts with the thick stroke; nothing is registered or queued. */
    constructor ()
      ensures State() == Spec.Created()
      ensures Valid() && Spec.Live(State())
    {
      visible, ambient, registered := false, false, false;
      pending := None;
      strokeWidth := THICK_STROKE;
      invalidations, registerCalls, unregisterCalls := 0, 0, 0;
    }

    predicate ShouldTimerBeRunning()
      reads this
      ensures ShouldTimerBeRunning() <==> visible && !ambient
    {
      Timer.ShouldTimerBeRunning(visible, ambient)
    }

    method UpdateTimer()
      modifies this
      ensures State() == Spec.UpdateTimer(old(State()))
    {
      pending := None;
      if ShouldTimerBeRunning() {
        pending := Some(0);
      }
    }

    method RegisterReceiver()
      modifies this
      ensures State() == Spec.RegisterReceiver(old(State()))
    {
      if registered {
        return;
      }
      registered := true;
      registerCalls := registerCalls + 1;
    }

    method UnregisterReceiver()
      modifies this
      ensures State() == Spec.UnregisterReceiver(old(State()))
    {
      if !registered {
        return;
      }
      registered := false;
      unregisterCalls := unregisterCalls + 1;
    }

    /** The handler's MSG_UPDATE_TIME case, run after its message left the queue. */
    method HandleUpdateTime(now: nat)
      requires pending.None?
      modifies this
      ensures State() == Spec.HandleUpdateTime(old(State()), now)
    {
      invalidations := invalidations + 1;
      if ShouldTimerBeRunning() {
        var delayMs := NextSecondDelay(now);
        pending := Some(delayMs);
      }
    }

    /** The looper takes the pending message, if any, off the queue and hands it to the handler. */
    method Deliver(now: nat)
      requires Valid()
      modifies this
      ensures Valid()
      ensures State() == Spec.Deliver(old(State()), now)
    {
      if pending.Some? {
        pending := None;
        HandleUpdateTime(now);
      }
      Spec.StepConsistent(old(State()), Spec.UpdateTimeDue(now));
    }

    method OnVisibilityChanged(newVisible: bool)
      requires Valid()
      modifies this
      ensures Valid()
      ensures State() == Spec.OnVisibilityChanged(old(State()), newVisible)
    {
      visible := newVisible;
      if newVisible {
        RegisterReceiver();
      } else {
        UnregisterReceiver();
      }
      UpdateTimer();
      Spec.StepConsistent(old(State()), Spec.VisibilityChange(newVisible));
    }

    method OnAmbientModeChanged(inAmbientMode: bool)
      requires Valid()
      modifies this
      ensures Valid()
      ensures State() == Spec.OnAmbientModeChanged(old(State()), inAmbientMode)
    {
      ambient := inAmbientMode;
      if inAmbientMode {
        strokeWidth := THIN_STROKE;
      } else {
        strokeWidth := THICK_STROKE;
      }
      invalidations := invalidations + 1;
      UpdateTimer();
      Spec.StepConsistent(old(State()), Spec.AmbientModeChange(inAmbientMode));
    }

    method OnDestroy()
      requires Valid()
      modifies this
      ensures Valid()
      ensures State() == Spec.OnDestroy(old(State()))
    {
      pending := None;
    }

    method OnTimeTick()
      requires Valid()
      modifies this
      ensures Valid()
      ensures State() == Spec.Invalidate(old(State()))
    {
      invalidations := invalidations + 1;
    }

    /**
     * mTimeZoneReceiver.onReceive: the calendar's time zone is reset, then
     * invalidate. The platform delivers the broadcast only while the receiver
     * is registered.
     */
    method OnTimeZoneChanged()
      requires Valid()
      requires registered
      modifies this
      ensures Valid()
      ensures State() == Spec.Step(old(State()), Spec.TimeZoneChange)
    {
      invalidations := invalidations + 1;
    }

    /**
     * onDraw for the calendar fields `f`: the frame for the current mode and
     * white stroke width, built operation by operation as the source draws it.
     */
    method OnDraw(f: ClockFields) returns (ops: seq<DrawOp>)
      ensures ops == Frame(ambient, strokeWidth, f)
    {
      ops := [FillCanvas(Black)];
      var secTurn := SecondTurn(f);
      var minTurn := MinuteTurn(f);
      var hrTurn := HourTurn(f);
      if !ambient {
        ops := ops + [FillCanvas(OuterOuterBackground), FillDisc(OuterRing), FillDisc(InnerFace)];
        ops := ops + [HandLine(SecondHand, secTurn, THIN_STROKE)];
      }
      ops := ops + [HandLine(MinuteHand, minTurn, strokeWidth)];
      ops := ops + [HandLine(HourHand, hrTurn, strokeWidth)];
      ghost var beforeTicks := ops;
      var tickIndex := 0;
      while tickIndex < 4
        invariant 0 <= tickIndex <= 4
        invariant ops == beforeTicks + Ticks(strokeWidth)[..tickIndex]
      {
        ops := ops + [Tick(tickIndex, strokeWidth)];
        tickIndex := tickIndex + 1;
      }
      ops := ops + [BorderArc(strokeWidth)];
    }
  }
}
