/**
 * The view itself: class PwdInputView with its fields, its key listener
 * and the private helpers it calls, the measure and size callbacks, the
 * timer task and the saved-state hooks. Every method is tied to the
 * value-level definition in KeyInput, CellStore, Layout, Render or Blink.
 */
module PwdView {
  import opened Wrappers
  import opened CellStore
  import opened KeyInput
  import opened Layout
  import Render
  import Blink

  class PwdInputView {
    // Configuration, read once by `init` and never changed afterwards.
    const pwdLength: int
    const pwdPadding: int
    const mode: int
    const isCursorEnable: bool
    const isCipherEnable: bool
    const borderWidth: int
    const cursorWidth: int
    /** The value of `dp2px(getContext(), 20)` that AT_MOST measuring falls back to. */
    const defaultPwdSize: int

    // Input state.
    var pwdData: array<Cell>
    var cursorPosition: int
    var isInputComplete: bool
    /** Whether `pwdInputListener` is non-null. */
    var hasListener: bool
    /** The listener calls made so far, in delivery order. */
    ghost var events: seq<PwdEvent>

    // Layout and blink state.
    var pwdSize: int
    var cipherTextSize: int
    var cursorHeight: int
    var isCursorShowing: bool

    ghost predicate Valid()
      reads this
    {
      pwdLength >= 1 && pwdData.Length == pwdLength && 0 <= cursorPosition <= pwdLength
    }

    /** The input state as a value. */
    function Abs(): (s: Store)
      reads this, pwdData
    {
      Store(pwdData[..], cursorPosition, isInputComplete)
    }

    /** `init` (PwdInputView.java:102-152), with the styled attributes as parameters. */
    constructor (pwdLength: int, pwdPadding: int, mode: int, isCursorEnable: bool, isCipherEnable: bool,
                 borderWidth: int, cursorWidth: int, defaultPwdSize: int)
      requires pwdLength >= 1
      ensures Valid() && fresh(pwdData) && Abs() == Empty(pwdLength)
      ensures this.pwdLength == pwdLength && this.pwdPadding == pwdPadding && this.mode == mode
      ensures this.isCursorEnable == isCursorEnable && this.isCipherEnable == isCipherEnable
      ensures this.borderWidth == borderWidth && this.cursorWidth == cursorWidth
      ensures this.defaultPwdSize == defaultPwdSize
      ensures !hasListener && events == []
      ensures pwdSize == 0 && cipherTextSize == 0 && cursorHeight == 0 && !isCursorShowing
    {
      this.pwdLength := pwdLength;
      this.pwdPadding := pwdPadding;
      this.mode := mode;
      this.isCursorEnable := isCursorEnable;
      this.isCipherEnable := isCipherEnable;
      this.borderWidth := borderWidth;
      this.cursorWidth := cursorWidth;
      this.defaultPwdSize := defaultPwdSize;
      pwdData := new Cell[pwdLength](_ => None);
      cursorPosition := 0;
      isInputComplete := false;
      hasListener := false;
      events := [];
      pwdSize := 0;
      cipherTextSize := 0;
      cursorHeight := 0;
      isCursorShowing := false;
    }

    /** `setPwdInputListener` (PwdInputView.java:84-86): the last registration wins; null removes it. */
    method SetPwdInputListener(present: bool)
      modifies this`hasListener
      ensures hasListener == present
    {
      hasListener := present;
    }

    /** `addPwd` (PwdInputView.java:495-509). */
    method AddPwd(addInfo: string) returns (addText: Option<string>)
      requires Valid()
      modifies pwdData, this`cursorPosition, this`isInputComplete, this`events
      ensures Valid()
      ensures var a := KeyInput.AddPwd(old(Abs()), hasListener, addInfo);
              Abs() == a.store && addText == a.addText && events == old(events) + a.fired
    {
      addText := None;
      if cursorPosition < pwdLength {
        addText := Some(addInfo);
        pwdData[cursorPosition] := Some(addInfo);
        cursorPosition := cursorPosition + 1;
        if cursorPosition == pwdLength {
          isInputComplete := true;
          if hasListener {
            events := events + [Complete];
          }
        }
      }
    }

    /** `deletePwdOfOne` (PwdInputView.java:475-487). */
    method DeletePwdOfOne() returns (deleteInfo: Cell)
      requires Valid()
      modifies pwdData, this`cursorPosition, this`isInputComplete
      ensures Valid()
      ensures var d := KeyInput.DeletePwdOfOne(old(Abs()));
              Abs() == d.store && deleteInfo == d.deleteInfo
    {
      deleteInfo := None;
      if cursorPosition > 0 {
        deleteInfo := pwdData[cursorPosition - 1];
        pwdData[cursorPosition - 1] := None;
        cursorPosition := cursorPosition - 1;
      } else if cursorPosition == 0 {
        deleteInfo := pwdData[cursorPosition];
        pwdData[cursorPosition] := None;
      }
      isInputComplete := false;
    }

    /**
     * `getPwdInfo` (PwdInputView.java:516-532): append the cells up to the
     * first empty one; null when nothing was appended.
     */
    method GetPwdInfo() returns (pwdInfo: Option<string>)
      requires Valid()
      ensures pwdInfo == PwdInfo(pwdData[..])
    {
      var builder := "";
      var i := 0;
      while i < pwdLength
        invariant 0 <= i <= pwdLength
        invariant i <= PrefixLen(pwdData[..])
        invariant builder == Concat(pwdData[..i])
      {
        if !TextEmpty(pwdData[i]) {
          assert pwdData[..i + 1][..i] == pwdData[..i];
          builder := builder + pwdData[i].value;
        } else {
          break;
        }
        i := i + 1;
      }
      assert i == PrefixLen(pwdData[..]);
      if builder == "" {
        pwdInfo := None;
      } else {
        pwdInfo := Some(builder);
      }
    }

    /**
     * `PwdKeyListener.onKey` (PwdInputView.java:435-467): the state and the
     * listener calls follow `KeyInput.OnKey`, and the invariant, once it
     * holds, keeps holding.
     */
    method OnKey(event: KeyEvent) returns (consumed: bool)
      requires Valid()
      modifies pwdData, this`cursorPosition, this`isInputComplete, this`events
      ensures Valid()
      ensures var o := KeyInput.OnKey(old(Abs()), hasListener, event);
              Abs() == o.store && consumed == o.consumed && events == old(events) + o.events
      ensures old(Inv(Abs())) ==> Inv(Abs())
    {
      ghost var s := Abs();
      if Inv(s) {
        OnKeyKeepsInv(s, hasListener, event);
      }
      if event.action == ACTION_DOWN {
        if event.keyCode == KEYCODE_DEL {
          if TextEmpty(pwdData[0]) {
            return true;
          }
          var deleteInfo := DeletePwdOfOne();
          if hasListener && !TextEmpty(deleteInfo) {
            events := events + [Change(deleteInfo.value)];
          }
          return true;
        }
        if KEYCODE_0 <= event.keyCode <= KEYCODE_9 {
          if isInputComplete {
            return true;
          }
          var inputInfo := AddPwd(DigitText(event.keyCode - 7));
          if hasListener && !TextEmpty(inputInfo) {
            events := events + [Change(inputInfo.value)];
          }
          return true;
        }
        if event.keyCode == KEYCODE_ENTER {
          if hasListener {
            var password := GetPwdInfo();
            events := events + [Confirm(password, isInputComplete)];
          }
          return true;
        }
      }
      return false;
    }

    /** `onMeasure` (PwdInputView.java:239-260): the measured dimensions, with `pwdSize` updated. */
    method OnMeasure(widthMode: MeasureMode, widthSize: int, paddingLeft: int, paddingRight: int)
      returns (measuredWidth: int, measuredHeight: int)
      requires Valid()
      modifies this`pwdSize
      ensures var m := Measure(widthMode, widthSize, paddingLeft, paddingRight, pwdPadding, pwdLength,
                               old(pwdSize), defaultPwdSize);
              measuredWidth == m.width && measuredHeight == m.height && pwdSize == m.pwdSize
    {
      var width := 0;
      match widthMode {
        case Unspecified =>
        case Exactly =>
          width := widthSize;
          pwdSize := JavaDiv(width - paddingLeft - paddingRight - pwdPadding * (pwdLength - 1), pwdLength);
        case AtMost =>
          width := pwdSize * pwdLength + pwdPadding * (pwdLength - 1);
          pwdSize := defaultPwdSize;
      }
      measuredWidth, measuredHeight := width, pwdSize;
    }

    /** `onSizeChanged` (PwdInputView.java:263-269). */
    method OnSizeChanged()
      modifies this`cipherTextSize, this`cursorHeight
      ensures cipherTextSize == Half(pwdSize) && cursorHeight == Half(pwdSize)
    {
      cipherTextSize := JavaDiv(pwdSize, 2);
      cursorHeight := JavaDiv(pwdSize, 2);
    }

    /** One run of the timer task (PwdInputView.java:142-149): the blink flag flips. */
    method TimerTick()
      modifies this`isCursorShowing
      ensures isCursorShowing == Blink.AfterTicks(old(isCursorShowing), 1)
    {
      isCursorShowing := !isCursorShowing;
    }

    /** The drawing inputs of the current state; the view's width, paddings and text offset come from the host. */
    function FrameOf(viewWidth: int, paddingLeft: int, paddingTop: int, paddingBottom: int, textY: int): Render.Frame
      reads this
    {
      Render.Frame(viewWidth, paddingLeft, paddingTop, paddingBottom, pwdLength, pwdSize, pwdPadding,
                   borderWidth, cursorWidth, cursorHeight, cipherTextSize, textY,
                   mode, isCursorEnable, isCipherEnable, isCursorShowing)
    }

    /**
     * `onDraw` (PwdInputView.java:277-293): border, cursor, glyphs. Under
     * the invariant there is one glyph per entered digit, after the border
     * and the cursor tick.
     */
    method OnDraw(viewWidth: int, paddingLeft: int, paddingTop: int, paddingBottom: int, textY: int,
                  hasFocus: bool)
      returns (commands: seq<Render.DrawCommand>)
      requires Valid()
      ensures var f := FrameOf(viewWidth, paddingLeft, paddingTop, paddingBottom, textY);
              commands == Render.OnDraw(f, Abs(), hasFocus)
      ensures Inv(Abs()) ==>
                var f := FrameOf(viewWidth, paddingLeft, paddingTop, paddingBottom, textY);
                |commands| == |Render.Border(f)|
                              + (if Render.CursorDrawn(f, isInputComplete, hasFocus) then 1 else 0)
                              + cursorPosition
    {
      var f := FrameOf(viewWidth, paddingLeft, paddingTop, paddingBottom, textY);
      commands := Render.Border(f);
      commands := commands + Render.CursorLines(f, cursorPosition, isInputComplete, hasFocus);
      commands := commands + Render.Glyphs(f, pwdData[..]);
      if Inv(Abs()) {
        Render.FrameLayout(f, Abs(), hasFocus);
      }
    }

    /** `onSaveInstanceState` (PwdInputView.java:208-214): the cells and the cursor. */
    method SaveInstanceState() returns (bundle: Saved)
      requires Valid()
      ensures bundle == Save(Abs())
    {
      bundle := Saved(pwdData[..], cursorPosition);
    }

    /**
     * `onRestoreInstanceState` (PwdInputView.java:222-230) with the
     * completion flag re-derived from the restored cursor (see
     * `CellStore.RestoreAsWritten` for the flag the source leaves stale).
     */
    method RestoreInstanceState(bundle: Saved)
      requires Valid() && |bundle.pwd| == pwdLength && 0 <= bundle.cursorPosition <= pwdLength
      modifies this`pwdData, this`cursorPosition, this`isInputComplete
      ensures Valid() && fresh(pwdData)
      ensures Abs() == Restore(old(Abs()), bundle)
    {
      pwdData := new Cell[|bundle.pwd|](i requires 0 <= i < |bundle.pwd| => bundle.pwd[i]);
      cursorPosition := bundle.cursorPosition;
      isInputComplete := cursorPosition == pwdLength;
    }
  }
}
