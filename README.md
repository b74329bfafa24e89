# PwdInputView, modelled in Dafny

PwdInputView is an Android `View` for entering a fixed-length numeric
PIN. It shows `pwdLength` cells and keeps the entered digits in the array
`pwdData`, with a cursor `cursorPosition` and a flag `isInputComplete`.
Digit keys fill the cell at the cursor, DEL clears the cell before it, and
ENTER reports the password. A `PwdInputListener` hears `pwdChange`,
`pwdComplete` and `keyConfirmPress`. The view sizes its cells in
`onMeasure` and draws borders or underlines, a blinking cursor tick and
one glyph per filled cell.

The model has seven modules:

- `CellStore` (cell_store.dfy): the cells as values, the invariant key
  events keep, the read-out `getPwdInfo`, and the saved-state bundle.
- `KeyInput` (key_input.dfy): `onKey`, `addPwd` and `deletePwdOfOne` as
  functions on a `Store` value. The listener calls are returned as a list
  of `PwdEvent`s in delivery order. The module also has the lemmas about
  single keys and about key sequences (`Run`).
- `Layout` (layout.dfy): `onMeasure` and `onSizeChanged`, using Java's
  truncating `int` division (`JavaDiv`).
- `Render` (render.dfy): what `onDraw` paints, as an ordered list of
  `DrawLine`/`DrawText` commands with integer coordinates.
- `Blink` (blink.dfy): the timer task's toggle of `isCursorShowing`, and
  the number of runs a fixed-rate schedule has made by a given time.
- `PwdView` (pwd_view.dfy): the class `PwdInputView`. It has the array
  field `pwdData` and methods that change it in place. Each method's
  `ensures` ties the new state to the value-level function of the old
  state. The listener is the flag `hasListener` (non-null listener) plus a
  ghost list `events` that each callback appends to.
- `Wrappers` (wrappers.dfy): `Option`, standing for a nullable Java reference.

## Behaviour kept as the code has it

- `pwdComplete` is called inside `addPwd`. It therefore reaches the
  listener before the `pwdChange` for the same digit (`[Complete, Change(d)]`).
  A description that puts the change first does not match the code.
- `pwdChange` carries only the text. No flag tells a deletion from an entry.
- DEL at cursor 0 with a non-empty cell 0 clears cell 0 and leaves the
  cursor at 0. Under the invariant this case cannot arise.
- The cursor is painted while `isCursorShowing` is **false**. The timer's
  first run comes with no delay and sets the flag to true. So the cursor is
  hidden right after attaching and painted after every even number of ticks.
- In AT_MOST mode the width is computed from the cell size *before*
  `pwdSize` is set to the default.
- Restoring saved state does not re-derive `isInputComplete`: `CellStore.RestoreAsWritten`
  keeps the restoring view's flag, as the code does. See Findings; the class's
  `RestoreInstanceState` uses the corrected `CellStore.Restore` instead.

## Model

| member | source | states |
|---|---|---|
| CellStore.DigitText | pwd_input_view/src/main/java/com/eme/pwd_input_view/PwdInputView.java:451 | `String.valueOf(keyCode - 7)` for a digit key is a one-character string whose character encodes that digit |
| CellStore.TextEmpty | pwd_input_view/src/main/java/com/eme/pwd_input_view/PwdInputView.java:439-452 | `TextUtils.isEmpty(c)` holds exactly when the cell adds no characters to a StringBuilder (null or "") |
| CellStore.Empty | pwd_input_view/src/main/java/com/eme/pwd_input_view/PwdInputView.java:139 | the new cell array is all null with cursor 0; that state satisfies the invariant |
| CellStore.PrefixLen | pwd_input_view/src/main/java/com/eme/pwd_input_view/PwdInputView.java:518-524 | the loop of getPwdInfo stops at the first empty cell: every cell before it is non-empty, and the cell it stops at (if any) is empty |
| CellStore.PwdInfo | pwd_input_view/src/main/java/com/eme/pwd_input_view/PwdInputView.java:516-532 | getPwdInfo never returns "" (an empty read-out is null), and it is non-null only when cell 0 holds text; PwdInfoNullIffFirstEmpty and PwdInfoUnderInv give the rest |
| CellStore.PwdInfoNullIffFirstEmpty | pwd_input_view/src/main/java/com/eme/pwd_input_view/PwdInputView.java:516-532 | getPwdInfo returns null exactly when cell 0 is null or "" |
| CellStore.PwdInfoUnderInv | pwd_input_view/src/main/java/com/eme/pwd_input_view/PwdInputView.java:516-532 | under the invariant, getPwdInfo returns null at cursor 0 and otherwise the cursor's worth of characters, which are the cell texts in order |
| CellStore.Save | pwd_input_view/src/main/java/com/eme/pwd_input_view/PwdInputView.java:208-214 | the bundle holds the cell array and the cursor |
| CellStore.RestoreAsWritten | pwd_input_view/src/main/java/com/eme/pwd_input_view/PwdInputView.java:222-230 | as written: cells and cursor are replaced and isInputComplete is left as the restoring view had it |
| CellStore.Restore | pwd_input_view/src/main/java/com/eme/pwd_input_view/PwdInputView.java:222-230 | corrected restore: cells and cursor are replaced and the completion flag holds exactly when the cursor is at the end |
| CellStore.RestoreAsWrittenLosesCompletion | pwd_input_view/src/main/java/com/eme/pwd_input_view/PwdInputView.java:222-230 | a full one-cell state satisfies the invariant, but restoring it as written into a new view gives a state outside it, flagged incomplete |
| CellStore.RestoreRoundTrip | pwd_input_view/src/main/java/com/eme/pwd_input_view/PwdInputView.java:208-230 | saving a valid state and restoring it (corrected) into any view with the same number of cells gives back exactly that state |
| KeyInput.AddPwd | pwd_input_view/src/main/java/com/eme/pwd_input_view/PwdInputView.java:495-509 | addPwd keeps the shape; it returns the text exactly when there was room; it calls pwdComplete exactly when a listener is set and the last cell was the one filled |
| KeyInput.DeletePwdOfOne | pwd_input_view/src/main/java/com/eme/pwd_input_view/PwdInputView.java:475-487 | deletePwdOfOne keeps the shape, clears the completion flag and returns the cell before the cursor (cell 0 at cursor 0) |
| KeyInput.ChangeFor | pwd_input_view/src/main/java/com/eme/pwd_input_view/PwdInputView.java:443-454 | after an add or delete onKey calls pwdChange at most once, exactly when a listener is set and the text is non-empty, and with that text |
| KeyInput.OnKey | pwd_input_view/src/main/java/com/eme/pwd_input_view/PwdInputView.java:435-467 | onKey keeps the shape; an event it does not consume changes nothing and calls nothing |
| KeyInput.DigitEntry | pwd_input_view/src/main/java/com/eme/pwd_input_view/PwdInputView.java:449-457 | a digit key with room and no completion writes digit keyCode-7 at the cursor, leaves every other cell alone, advances the cursor and is consumed; the callbacks are pwdComplete (only on reaching the end) then pwdChange |
| KeyInput.DigitWhenComplete | pwd_input_view/src/main/java/com/eme/pwd_input_view/PwdInputView.java:450 | a digit key while complete is consumed with no change and no callback |
| KeyInput.DigitWhenFullButIncomplete | pwd_input_view/src/main/java/com/eme/pwd_input_view/PwdInputView.java:449-509 | a digit key with all cells filled but the flag false is consumed; addPwd returns null, nothing changes and no callback is made |
| KeyInput.CompletionStep | pwd_input_view/src/main/java/com/eme/pwd_input_view/PwdInputView.java:449-457 | under the invariant, incomplete becomes complete exactly on a digit typed into the last cell; pwdComplete is called exactly on that step (with a listener), followed only by that digit's pwdChange |
| KeyInput.DeleteKey | pwd_input_view/src/main/java/com/eme/pwd_input_view/PwdInputView.java:438-447 | DEL with cell 0 empty is consumed with no change; otherwise it clears cell cursor-1 and steps back (cursor > 0) or clears cell 0 and stays (cursor 0), resets completion, and calls pwdChange only for a non-empty removed text |
| KeyInput.DeleteUnderInv | pwd_input_view/src/main/java/com/eme/pwd_input_view/PwdInputView.java:438-447 | under the invariant, DEL at cursor 0 is swallowed; otherwise it nulls the last filled cell, steps back, resets completion and reports the removed digit |
| KeyInput.AddThenDelete | pwd_input_view/src/main/java/com/eme/pwd_input_view/PwdInputView.java:438-509 | an accepted digit followed by DEL restores cells, cursor and completion flag, and the DEL reports that digit |
| KeyInput.OnKeyKeepsInv | pwd_input_view/src/main/java/com/eme/pwd_input_view/PwdInputView.java:435-467 | every key event keeps the invariant: cursor in [0, pwdLength], digits before it, nulls from it, complete iff cursor == pwdLength |
| KeyInput.ConfirmKey | pwd_input_view/src/main/java/com/eme/pwd_input_view/PwdInputView.java:458-464 | ENTER is consumed, changes nothing, and with a listener calls keyConfirmPress(getPwdInfo(), isInputComplete) |
| KeyInput.OtherKeys | pwd_input_view/src/main/java/com/eme/pwd_input_view/PwdInputView.java:435-467 | every key other than DEL, digits and ENTER, and every action other than ACTION_DOWN, returns false and changes nothing |
| KeyInput.ConfirmAfterRestoreAsWritten | pwd_input_view/src/main/java/com/eme/pwd_input_view/PwdInputView.java:222-230 | a full password restored as written into a new view is confirmed as incomplete, where the saving view confirms it complete |
| KeyInput.Run | pwd_input_view/src/main/java/com/eme/pwd_input_view/PwdInputView.java:435-467 | feeding any sequence of keys keeps the shape and the number of cells |
| KeyInput.RunKeepsInv | pwd_input_view/src/main/java/com/eme/pwd_input_view/PwdInputView.java:435-509 | from the state after construction, every sequence of key events keeps the invariant |
| KeyInput.TypeDigits | pwd_input_view/src/main/java/com/eme/pwd_input_view/PwdInputView.java:449-509 | typing digits into the empty view fills the first min(count, pwdLength) cells with them in order; it makes one pwdChange per accepted digit, pwdComplete just before the pwdChange of the last cell, and nothing for extra digits |
| KeyInput.CompleteOnce | pwd_input_view/src/main/java/com/eme/pwd_input_view/PwdInputView.java:501-505 | with a listener, typing digits calls pwdComplete once if at least pwdLength were typed and never otherwise |
| KeyInput.TypedPassword | pwd_input_view/src/main/java/com/eme/pwd_input_view/PwdInputView.java:516-532 | after typing digits, getPwdInfo gives the accepted digits as one string (null if none) and the view is complete iff pwdLength digits were accepted |
| KeyInput.FourCellScenario | pwd_input_view/src/main/java/com/eme/pwd_input_view/PwdInputView.java:435-509 | four cells, keys 1 2 3 DEL 4 5 6: callbacks change 1, 2, 3, 3 (deletion), 4, complete, 5; password "1245", complete; the 6 is swallowed |
| Layout.JavaDiv | pwd_input_view/src/main/java/com/eme/pwd_input_view/PwdInputView.java:251 | Java int division by a positive divisor truncates toward zero: the quotient times the divisor is at most the dividend in size and within one divisor of it, with the same sign |
| Layout.Measure | pwd_input_view/src/main/java/com/eme/pwd_input_view/PwdInputView.java:239-260 | the measured height is the new pwdSize |
| Layout.Half | pwd_input_view/src/main/java/com/eme/pwd_input_view/PwdInputView.java:263-269 | cipherTextSize and cursorHeight are half of pwdSize, truncated toward zero |
| Layout.ExactlyFits | pwd_input_view/src/main/java/com/eme/pwd_input_view/PwdInputView.java:247-252 | in EXACTLY mode the width is the given size, and pwdSize is the largest cell size for which cells, gaps and paddings fit in it |
| Layout.ExactlyTruncatesTowardZero | pwd_input_view/src/main/java/com/eme/pwd_input_view/PwdInputView.java:251 | with too little width the numerator is negative and the quotient is truncated up toward zero: a size <= 0, no smaller than the exact quotient and less than one above it |
| Layout.ExactlyNarrowExample | pwd_input_view/src/main/java/com/eme/pwd_input_view/PwdInputView.java:251 | width 1, two cells, gap 2 gives cells of 0, where a floor division would give -1 |
| Layout.ExactlyExample | pwd_input_view/src/main/java/com/eme/pwd_input_view/PwdInputView.java:251 | four cells, gap 2, width 42, no padding: cells of 9, measured 42 by 9 |
| Layout.AtMostWidthLags | pwd_input_view/src/main/java/com/eme/pwd_input_view/PwdInputView.java:253-257 | AT_MOST width uses the old pwdSize, then pwdSize becomes the default; a second measure reports the default row width; the two widths agree iff the old size was the default |
| Layout.UnspecifiedKeepsSize | pwd_input_view/src/main/java/com/eme/pwd_input_view/PwdInputView.java:245-246 | UNSPECIFIED reports width 0 and keeps pwdSize |
| Render.CheekLines | pwd_input_view/src/main/java/com/eme/pwd_input_view/PwdInputView.java:300-322 | the cheek border is pwdLength + 3 lines: first the top, bottom, left and right edges of the box from (0,0) to (getWidth(), pwdSize), with the border width and no padding, then divider i (1 <= i < pwdLength) as the vertical line at DividerX(i) from 0 to borderWidth+paddingTop+pwdSize+paddingBottom with half the border width |
| Render.UnderlineLines | pwd_input_view/src/main/java/com/eme/pwd_input_view/PwdInputView.java:329-338 | the underline style draws one line per cell, each with the border width and the border paint |
| Render.UnderlineSpansCells | pwd_input_view/src/main/java/com/eme/pwd_input_view/PwdInputView.java:329-338 | segment i starts at paddingLeft+(pwdSize+pwdPadding)*i, is pwdSize long, lies at paddingTop+pwdSize, and the next segment starts one gap later |
| Render.UnderlineEndsAtRowWidth | pwd_input_view/src/main/java/com/eme/pwd_input_view/PwdInputView.java:255 | the last segment ends at paddingLeft plus the row width the AT_MOST formula gives for the current cell size |
| Render.CheekDividersInGaps | pwd_input_view/src/main/java/com/eme/pwd_input_view/PwdInputView.java:312-321 | with a non-negative gap, the x of divider i (paddingLeft+(pwdSize+pwdPadding)*i-pwdPadding/2, where CheekLines draws it) lies between the end of cell i-1 and the start of cell i |
| Render.CursorLines | pwd_input_view/src/main/java/com/eme/pwd_input_view/PwdInputView.java:345-355 | drawCursor draws at most one line, exactly when not showing, enabled, incomplete and focused, with the cursor paint and width; CursorTick places it |
| Render.CursorTick | pwd_input_view/src/main/java/com/eme/pwd_input_view/PwdInputView.java:345-355 | one tick iff not showing, enabled, incomplete and focused; it is vertical in the glyph column of the cursor's cell, cursorHeight long, inside the cell and within its height when it fits |
| Render.GlyphsUpTo | pwd_input_view/src/main/java/com/eme/pwd_input_view/PwdInputView.java:372-386 | after k iterations of the loop of drawCipherText at most k texts are drawn, each on the glyph baseline, in the text size, and non-empty |
| Render.Glyphs | pwd_input_view/src/main/java/com/eme/pwd_input_view/PwdInputView.java:362-386 | drawCipherText draws at most pwdLength non-empty texts on the glyph baseline; GlyphsUnderInv and GlyphsSpellPassword say which |
| Render.GlyphsUnderInv | pwd_input_view/src/main/java/com/eme/pwd_input_view/PwdInputView.java:362-386 | under the invariant, one glyph per entered digit, at cell i's centre: "*" with cipher on, the digit otherwise |
| Render.GlyphsSpellPassword | pwd_input_view/src/main/java/com/eme/pwd_input_view/PwdInputView.java:372-385 | under the invariant, with cipher off, getPwdInfo is null for an empty password and otherwise the glyph texts in drawing order; with cipher on every glyph is "*" |
| Render.Border | pwd_input_view/src/main/java/com/eme/pwd_input_view/PwdInputView.java:280-289 | the CHEEK mode draws pwdLength + 3 border lines, the UNDERLINE mode pwdLength, any other mode none; all in the border paint |
| Render.OnDraw | pwd_input_view/src/main/java/com/eme/pwd_input_view/PwdInputView.java:277-293 | a frame starts with the border, adds at most one cursor line and pwdLength glyphs, and its texts are exactly the commands after border and cursor; FrameLayout gives the counts under the invariant |
| Render.FrameLayout | pwd_input_view/src/main/java/com/eme/pwd_input_view/PwdInputView.java:277-293 | under the invariant a frame is the border, then at most one cursor tick (drawn only over an empty cell), then one glyph per digit |
| Render.CursorPastEndAfterRestoreAsWritten | pwd_input_view/src/main/java/com/eme/pwd_input_view/PwdInputView.java:222-230 | a full one-cell password restored as written into a new view is drawn, when focused and in the painted phase, with a cursor line at the centre of a second cell, right of the only one |
| Blink.AfterTicks | pwd_input_view/src/main/java/com/eme/pwd_input_view/PwdInputView.java:142-149 | after n timer runs the blink flag has flipped exactly when n is odd |
| Blink.TwoTicksRestore | pwd_input_view/src/main/java/com/eme/pwd_input_view/PwdInputView.java:142-149 | the blink has a period of two timer runs |
| Blink.PaintedPhaseAfterAttach | pwd_input_view/src/main/java/com/eme/pwd_input_view/PwdInputView.java:142-158 | starting from false with an immediate first run, the cursor is in its painted phase after n runs exactly when n is even |
| Blink.RunsBy | pwd_input_view/src/main/java/com/eme/pwd_input_view/PwdInputView.java:140-158 | t ms after `scheduleAtFixedRate(timerTask, 0, cursorFlashTime)` with a period of 500 ms, n runs have happened, with (n-1)*500 <= t < n*500 |
| Blink.PaintedAtTime | pwd_input_view/src/main/java/com/eme/pwd_input_view/PwdInputView.java:140-158 | the cursor is hidden in the first 500 ms after attaching, painted in the next 500 ms, and so on |
| PwdView.PwdInputView.constructor | pwd_input_view/src/main/java/com/eme/pwd_input_view/PwdInputView.java:102-152 | init stores the configuration and creates pwdLength null cells, cursor 0, not complete, no listener, blink flag false |
| PwdView.PwdInputView.SetPwdInputListener | pwd_input_view/src/main/java/com/eme/pwd_input_view/PwdInputView.java:84-86 | the last registration wins |
| PwdView.PwdInputView.AddPwd | pwd_input_view/src/main/java/com/eme/pwd_input_view/PwdInputView.java:495-509 | the array, cursor, flag and callbacks change as KeyInput.AddPwd says |
| PwdView.PwdInputView.DeletePwdOfOne | pwd_input_view/src/main/java/com/eme/pwd_input_view/PwdInputView.java:475-487 | the array, cursor and flag change as KeyInput.DeletePwdOfOne says, and the removed cell is returned |
| PwdView.PwdInputView.GetPwdInfo | pwd_input_view/src/main/java/com/eme/pwd_input_view/PwdInputView.java:516-532 | the StringBuilder loop with break returns exactly CellStore.PwdInfo of the array |
| PwdView.PwdInputView.OnKey | pwd_input_view/src/main/java/com/eme/pwd_input_view/PwdInputView.java:435-467 | state, return value and listener calls follow KeyInput.OnKey; the invariant, once it holds, keeps holding |
| PwdView.PwdInputView.OnMeasure | pwd_input_view/src/main/java/com/eme/pwd_input_view/PwdInputView.java:239-260 | measured dimensions and new pwdSize are those of Layout.Measure applied to the old pwdSize |
| PwdView.PwdInputView.OnSizeChanged | pwd_input_view/src/main/java/com/eme/pwd_input_view/PwdInputView.java:263-269 | cipherTextSize and cursorHeight become Layout.Half of pwdSize |
| PwdView.PwdInputView.TimerTick | pwd_input_view/src/main/java/com/eme/pwd_input_view/PwdInputView.java:142-149 | one timer run flips isCursorShowing |
| PwdView.PwdInputView.OnDraw | pwd_input_view/src/main/java/com/eme/pwd_input_view/PwdInputView.java:277-293 | the commands are Render.OnDraw of the view's state; under the invariant they number border + cursor tick + cursorPosition glyphs |
| PwdView.PwdInputView.SaveInstanceState | pwd_input_view/src/main/java/com/eme/pwd_input_view/PwdInputView.java:208-214 | the bundle is CellStore.Save of the state |
| PwdView.PwdInputView.RestoreInstanceState | pwd_input_view/src/main/java/com/eme/pwd_input_view/PwdInputView.java:222-230 | the view takes a fresh array with the saved cells and the saved cursor, through the corrected CellStore.Restore |

## Left out

- Android drawing: `Canvas` and `Paint` calls (colours, paint styles, `getClipBounds`).
  Drawing is modelled as an ordered list of line and text commands.
- `TypedArray` attribute parsing: the attribute values are constructor parameters.
- `dp2px`, which is floating point: `pwdPadding`, `borderWidth`, `cursorWidth` and the
  default cell size are integer parameters.
- The vertical text centring, which uses float font metrics: it is the integer parameter `textY`.
- The soft keyboard and focus: `onTouchEvent`, `onWindowFocusChanged`,
  `onCreateInputConnection`, `requestFocus` and `InputMethodManager`.
  `hasFocus()` is a boolean input to drawing.
- `postInvalidate`, which is a redraw request to the framework.
- `java.util.Timer` scheduling in `onAttachedToWindow` and cancellation in
  `onDetachedFromWindow`. Here the task runs on a timer thread, which is
  concurrency. Only the toggle itself (`TimerTick`, `Blink.AfterTicks`) and the
  run count of an ideal fixed-rate schedule (`Blink.RunsBy`) are modelled.
- `MeasureSpec` bit packing: the width mode is the `MeasureMode` datatype and the size is a separate integer.
- `super.onSaveInstanceState` and `super.onRestoreInstanceState`: the framework's own view state.
- Listener reentrancy: a listener calling back into the view inside a callback is not modelled.
- The one-argument constructor `PwdInputView(Context)`, which skips `init` and leaves `pwdData` null.
- Java's 32-bit `int` wrap-around: sizes and coordinates are unbounded integers, since pixel values stay far from the limit.
- PwdView.PwdInputView.constructor: requires `pwdLength >= 1`. The source throws on a negative length, and with length 0 a DEL key indexes `pwdData[0]` out of bounds.
- PwdView.PwdInputView.RestoreInstanceState: requires a saved array of `pwdLength` cells and a cursor in [0, pwdLength]. The source checks neither, and a mismatched bundle would make later key handling index out of bounds.
  The bundle holds a copy of the cells (`CellStore.Saved`) and the restored view gets a fresh array. In the source the bundle holds the view's own array (line 211) and the restored view adopts the bundle's array (line 225). So the model does not capture that, within one process, a later key press in either view also changes the bundle.
  It also sets `isInputComplete` from the restored cursor, as the corrected `CellStore.Restore` does, where the source leaves the flag unchanged (see Findings; `CellStore.RestoreAsWritten` is the as-written half).

## Findings

| source | as written | input that shows it | evidently intended | confidence | as-written member | corrected member |
|---|---|---|---|---|---|---|
| pwd_input_view/src/main/java/com/eme/pwd_input_view/PwdInputView.java:222-230 | `onRestoreInstanceState` replaces `pwdData` and `cursorPosition` but not `isInputComplete`, which keeps the restoring view's value (false in a new view) | pwdLength 1: type 1, save, then restore into a new view (a rotation). Every cell is filled but `isInputComplete` is false; ENTER calls `keyConfirmPress("1", false)` and the cursor is painted past the last cell (`Render.CursorPastEndAfterRestoreAsWritten`) | after a restore, `isInputComplete` holds exactly when `cursorPosition == pwdLength` | not executed; high | CellStore.RestoreAsWrittenLosesCompletion | CellStore.RestoreRoundTrip |
