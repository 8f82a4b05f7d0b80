/**
 * The pure arithmetic of the redraw timer: when the once-per-second timer
 * should run, and how long the handler waits before the next redraw so that
 * redraws land on wall-clock second boundaries.
 */
module Timer {

  /** INTERACTIVE_UPDATE_RATE_MS: one second, in milliseconds. */
  const INTERACTIVE_UPDATE_RATE_MS: nat := 1000

  /** The timer runs only while the face is visible and not in ambient mode. */
  predicate ShouldTimerBeRunning(visible: bool, ambient: bool)
    ensures ShouldTimerBeRunning(visible, ambient) <==> visible && !ambient
  {
    visible && !ambient
  }

  /**
   * The delay handed to sendEmptyMessageDelayed when the handler reschedules
   * itself at epoch time `timeMs`. Epoch times are non-negative here, so the
   * Java remainder and Dafny's Euclidean remainder agree.
   * The delay is positive, at most one second, and ends exactly on the next
   * second boundary after `timeMs`.
   */
  function NextSecondDelay(timeMs: nat): (delayMs: nat)
    ensures 1 <= delayMs <= INTERACTIVE_UPDATE_RATE_MS
    ensures (timeMs + delayMs) % INTERACTIVE_UPDATE_RATE_MS == 0
    ensures (timeMs + delayMs) / INTERACTIVE_UPDATE_RATE_MS == timeMs / INTERACTIVE_UPDATE_RATE_MS + 1
  {
    INTERACTIVE_UPDATE_RATE_MS - timeMs % INTERACTIVE_UPDATE_RATE_MS
  }

  /** No second boundary lies strictly between `timeMs` and the end of the delay. */
  lemma NoEarlierSecondBoundary(timeMs: nat, k: nat)
    requires 0 < k < NextSecondDelay(timeMs)
    ensures (timeMs + k) % INTERACTIVE_UPDATE_RATE_MS != 0
  {
  }

  /**
   * Every time inside the same second aims at the same boundary: waking up
   * `k` milliseconds later shortens the delay by exactly `k`.
   */
  lemma SameBoundaryWithinSecond(timeMs: nat, k: nat)
    requires k < NextSecondDelay(timeMs)
    ensures timeMs + k + NextSecondDelay(timeMs + k) == timeMs + NextSecondDelay(timeMs)
  {
  }

  /**
   * A redraw that fires exactly on the boundary it was scheduled for waits a
   * full second for the next one: the cadence does not drift.
   */
  lemma NoDrift(timeMs: nat)
    ensures NextSecondDelay(timeMs + NextSecondDelay(timeMs)) == INTERACTIVE_UPDATE_RATE_MS
  {
  }
}
