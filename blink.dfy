/**
 * The cursor blink of PwdInputView: the timer task flips
 * `isCursorShowing` on every tick, and the cursor is painted while the
 * flag is false.
 */
module Blink {
  import opened Layout

  /** `cursorFlashTime`: the period of the timer task, in milliseconds. */
  const CURSOR_FLASH_TIME: int := 500

  /** The value of `isCursorShowing` after `n` runs of the timer task from `showing`. */
  function AfterTicks(showing: bool, n: nat): (r: bool)
    ensures r == (if n % 2 == 0 then showing else !showing)
  {
    if n == 0 then showing else !AfterTicks(showing, n - 1)
  }

  /** Two ticks bring the flag back: the blink has a period of two ticks. */
  lemma {:induction false} TwoTicksRestore(showing: bool, n: nat)
    ensures AfterTicks(showing, n + 2) == AfterTicks(showing, n)
  {
  }

  /**
   * The view starts with the flag false and the timer's first run comes
   * with no delay (`scheduleAtFixedRate(timerTask, 0, cursorFlashTime)`):
   * after n runs the cursor is in its painted phase exactly when n is even,
   * so it is hidden right after attaching and first painted one period later.
   */
  lemma PaintedPhaseAfterAttach(n: nat)
    ensures !AfterTicks(false, n) <==> n % 2 == 0
  {
  }

  /**
   * The number of timer runs that have happened `t` milliseconds after
   * `scheduleAtFixedRate(timerTask, 0, cursorFlashTime)`: one at time 0 and
   * one every period after it.
   */
  function RunsBy(t: nat): (n: nat)
    ensures n >= 1
    ensures (n - 1) * CURSOR_FLASH_TIME <= t < n * CURSOR_FLASH_TIME
  {
    DivBounds(t, CURSOR_FLASH_TIME);
    t / CURSOR_FLASH_TIME + 1
  }

  /**
   * Measured in time: the cursor is hidden during the first period after
   * attaching, painted during the second, and so on.
   */
  lemma PaintedAtTime(t: nat)
    ensures !AfterTicks(false, RunsBy(t)) <==> (t / CURSOR_FLASH_TIME) % 2 == 1
  {
  }
}
