/**
 * The size arithmetic of PwdInputView: `onMeasure` and `onSizeChanged`.
 * Every division is Java's `int` division, which truncates toward zero.
 */
module Layout {

  /** Java `a / b` on `int` for a positive divisor: the quotient truncated toward zero. */
  function JavaDiv(a: int, b: int): (q: int)
    requires b > 0
    ensures a >= 0 ==> 0 <= b * q <= a < b * q + b
    ensures a < 0 ==> b * q - b < a <= b * q <= 0
  {
    if a >= 0 then
      DivBounds(a, b);
      a / b
    else
      DivBounds(-a, b);
      assert b * -((-a) / b) == -(b * ((-a) / b));
      -((-a) / b)
  }

  /** Floor division of a non-negative number by a positive one. */
  lemma DivBounds(n: int, b: int)
    requires n >= 0 && b > 0
    ensures 0 <= b * (n / b) <= n < b * (n / b) + b
  {
    assert n == b * (n / b) + n % b;
  }

  /** The mode of `MeasureSpec.getMode(widthMeasureSpec)`. */
  datatype MeasureMode = Unspecified | Exactly | AtMost

  /** What `onMeasure` passes to `setMeasuredDimension`, and the new `pwdSize`. */
  datatype Measured = Measured(width: int, height: int, pwdSize: int)

  /**
   * `onMeasure` (PwdInputView.java:239-260). `specSize` is
   * `MeasureSpec.getSize(widthMeasureSpec)`, `oldPwdSize` the cell size
   * before the call and `defaultPwdSize` the value of `dp2px(20)`.
   */
  function Measure(mode: MeasureMode, specSize: int, paddingLeft: int, paddingRight: int,
                   pwdPadding: int, pwdLength: int, oldPwdSize: int, defaultPwdSize: int): (m: Measured)
    requires pwdLength >= 1
    ensures m.height == m.pwdSize
  {
    match mode
    case Unspecified =>
      Measured(0, oldPwdSize, oldPwdSize)
    case Exactly =>
      var size := JavaDiv(specSize - paddingLeft - paddingRight - pwdPadding * (pwdLength - 1), pwdLength);
      Measured(specSize, size, size)
    case AtMost =>
      Measured(oldPwdSize * pwdLength + pwdPadding * (pwdLength - 1), defaultPwdSize, defaultPwdSize)
  }

  /** `onSizeChanged` (PwdInputView.java:263-269): the text size and the cursor length are half a cell. */
  function Half(pwdSize: int): (h: int)
    ensures pwdSize >= 0 ==> 0 <= 2 * h <= pwdSize <= 2 * h + 1
    ensures pwdSize < 0 ==> 2 * h - 1 <= pwdSize <= 2 * h <= 0
  {
    JavaDiv(pwdSize, 2)
  }

  /** The width a row of cells takes: the cells and the gaps between them. */
  function RowWidth(pwdSize: int, pwdPadding: int, pwdLength: int): int
  {
    pwdSize * pwdLength + pwdPadding * (pwdLength - 1)
  }

  /**
   * In EXACTLY mode the cell size is the largest one for which the row of
   * cells, the gaps and both paddings fit in the given width (when they
   * fit at all).
   */
  lemma ExactlyFits(specSize: int, paddingLeft: int, paddingRight: int, pwdPadding: int,
                    pwdLength: int, oldPwdSize: int, defaultPwdSize: int)
    requires pwdLength >= 1
    requires specSize - paddingLeft - paddingRight - pwdPadding * (pwdLength - 1) >= 0
    ensures var m := Measure(Exactly, specSize, paddingLeft, paddingRight, pwdPadding, pwdLength,
                             oldPwdSize, defaultPwdSize);
            && m.width == specSize
            && m.pwdSize >= 0
            && paddingLeft + RowWidth(m.pwdSize, pwdPadding, pwdLength) + paddingRight <= specSize
            && specSize < paddingLeft + RowWidth(m.pwdSize + 1, pwdPadding, pwdLength) + paddingRight
  {
    var n := specSize - paddingLeft - paddingRight - pwdPadding * (pwdLength - 1);
    var q := JavaDiv(n, pwdLength);
    assert (q + 1) * pwdLength == q * pwdLength + pwdLength;
  }

  /**
   * When the fixed width is too small for the gaps, the numerator is
   * negative and Java's division rounds it up toward zero: the cell size is
   * never positive, never below the exact quotient, and less than one above it.
   */
  lemma ExactlyTruncatesTowardZero(specSize: int, paddingLeft: int, paddingRight: int, pwdPadding: int,
                                   pwdLength: int, oldPwdSize: int, defaultPwdSize: int)
    requires pwdLength >= 1
    requires specSize - paddingLeft - paddingRight - pwdPadding * (pwdLength - 1) < 0
    ensures var m := Measure(Exactly, specSize, paddingLeft, paddingRight, pwdPadding, pwdLength,
                             oldPwdSize, defaultPwdSize);
            && m.pwdSize <= 0
            && specSize - paddingLeft - paddingRight - pwdPadding * (pwdLength - 1) <= pwdLength * m.pwdSize
            && pwdLength * m.pwdSize - pwdLength < specSize - paddingLeft - paddingRight - pwdPadding * (pwdLength - 1)
  {
  }

  /** A width of 1 for two cells with a gap of 2 gives cells of 0, where a floor division would give -1. */
  lemma ExactlyNarrowExample(oldPwdSize: int, defaultPwdSize: int)
    ensures Measure(Exactly, 1, 0, 0, 2, 2, oldPwdSize, defaultPwdSize) == Measured(1, 0, 0)
  {
  }

  /** Four cells, gaps of 2, a width of 42 and no padding give cells of 9. */
  lemma ExactlyExample(oldPwdSize: int, defaultPwdSize: int)
    ensures Measure(Exactly, 42, 0, 0, 2, 4, oldPwdSize, defaultPwdSize) == Measured(42, 9, 9)
  {
  }

  /**
   * In AT_MOST mode the width is computed from the cell size before the
   * call, and only then is the cell size set to the default: the first
   * measure reports the row width of the old size, a second one the row
   * width of the default size.
   */
  lemma AtMostWidthLags(specSize: int, paddingLeft: int, paddingRight: int, pwdPadding: int,
                        pwdLength: int, oldPwdSize: int, defaultPwdSize: int)
    requires pwdLength >= 1
    ensures var m1 := Measure(AtMost, specSize, paddingLeft, paddingRight, pwdPadding, pwdLength,
                              oldPwdSize, defaultPwdSize);
            var m2 := Measure(AtMost, specSize, paddingLeft, paddingRight, pwdPadding, pwdLength,
                              m1.pwdSize, defaultPwdSize);
            && m1.width == RowWidth(oldPwdSize, pwdPadding, pwdLength)
            && m1.pwdSize == defaultPwdSize
            && m2.width == RowWidth(defaultPwdSize, pwdPadding, pwdLength)
            && m2.pwdSize == defaultPwdSize
            && (m1.width == m2.width <==> oldPwdSize == defaultPwdSize)
  {
    var m1 := Measure(AtMost, specSize, paddingLeft, paddingRight, pwdPadding, pwdLength,
                      oldPwdSize, defaultPwdSize);
    if m1.width == RowWidth(defaultPwdSize, pwdPadding, pwdLength) {
      assert (oldPwdSize - defaultPwdSize) * pwdLength == 0;
    }
  }

  /** In UNSPECIFIED mode the reported width is 0 and the cell size stays. */
  lemma UnspecifiedKeepsSize(specSize: int, paddingLeft: int, paddingRight: int, pwdPadding: int,
                             pwdLength: int, oldPwdSize: int, defaultPwdSize: int)
    requires pwdLength >= 1
    ensures Measure(Unspecified, specSize, paddingLeft, paddingRight, pwdPadding, pwdLength,
                    oldPwdSize, defaultPwdSize) == Measured(0, oldPwdSize, oldPwdSize)
  {
  }
}
