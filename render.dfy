/**
 * What `onDraw` paints, as an ordered list of line and text commands:
 * the border (`drawCheek` or `drawUnderline`), the cursor tick
 * (`drawCursor`) and one glyph per filled cell (`drawCipherText`).
 */
module Render {
  import opened Wrappers
  import opened CellStore
  import opened Layout

  /** The `mode` values of the two border styles. */
  const BORDER_STYLE_CHEEK: int := 1001
  const BORDER_STYLE_UNDERLINE: int := 1002
  /** The glyph drawn for every filled cell when cipher text is enabled. */
  const CIPHER_TEXT: string := "*"

  /** Which paint a line is drawn with: `mPaint` (border) or `cursorPaint`. */
  datatype Paint = BorderPaint | CursorPaint

  datatype DrawCommand =
    | DrawLine(x0: int, y0: int, x1: int, y1: int, strokeWidth: int, paint: Paint)
    | DrawText(text: string, x: int, y: int, textSize: int)

  /**
   * The view's fields and properties that drawing uses, besides the cells.
   * `viewWidth` is `getWidth()`; `textY` is the vertical offset the source
   * computes from the glyph's font metrics.
   */
  datatype Frame = Frame(
    viewWidth: int, paddingLeft: int, paddingTop: int, paddingBottom: int,
    pwdLength: int, pwdSize: int, pwdPadding: int,
    borderWidth: int, cursorWidth: int, cursorHeight: int, cipherTextSize: int, textY: int,
    mode: int, isCursorEnable: bool, isCipherEnable: bool, isCursorShowing: bool)

  /** Left edge of cell `i`. */
  function CellLeft(f: Frame, i: int): int
  {
    f.paddingLeft + (f.pwdSize + f.pwdPadding) * i
  }

  /** Horizontal centre of cell `i`, where the cursor and the glyphs stand. */
  function CellCentre(f: Frame, i: int): int
  {
    f.paddingLeft + Half(f.pwdSize) + (f.pwdSize + f.pwdPadding) * i
  }

  lemma CellStep(f: Frame, i: int)
    ensures CellLeft(f, i + 1) == CellLeft(f, i) + f.pwdSize + f.pwdPadding
  {
    assert (f.pwdSize + f.pwdPadding) * (i + 1) == (f.pwdSize + f.pwdPadding) * i + (f.pwdSize + f.pwdPadding);
  }

  // ---------------------------------------------------------------------
  // Borders

  /** The x of the divider before cell `i`: the middle of the gap, rounded as Java does. */
  function DividerX(f: Frame, i: int): int
  {
    CellLeft(f, i) - Half(f.pwdPadding)
  }

  /** `drawCheek` (PwdInputView.java:300-322): four edges, then a divider before each cell but the first. */
  function CheekLines(f: Frame): (r: seq<DrawCommand>)
    requires f.pwdLength >= 1
    ensures |r| == f.pwdLength + 3
    ensures r[..4] == [DrawLine(0, 0, f.viewWidth, 0, f.borderWidth, BorderPaint),
                       DrawLine(0, f.pwdSize, f.viewWidth, f.pwdSize, f.borderWidth, BorderPaint),
                       DrawLine(0, 0, 0, f.pwdSize, f.borderWidth, BorderPaint),
                       DrawLine(f.viewWidth, 0, f.viewWidth, f.pwdSize, f.borderWidth, BorderPaint)]
    ensures forall i :: 1 <= i < f.pwdLength ==>
              r[3 + i] == DrawLine(DividerX(f, i), 0, DividerX(f, i),
                                   f.borderWidth + f.paddingTop + f.pwdSize + f.paddingBottom,
                                   Half(f.borderWidth), BorderPaint)
  {
    var w, s, bw := f.viewWidth, f.pwdSize, f.borderWidth;
    [DrawLine(0, 0, w, 0, bw, BorderPaint), DrawLine(0, s, w, s, bw, BorderPaint),
     DrawLine(0, 0, 0, s, bw, BorderPaint), DrawLine(w, 0, w, s, bw, BorderPaint)]
    + seq(f.pwdLength - 1, k requires 0 <= k < f.pwdLength - 1 =>
            DrawLine(DividerX(f, k + 1), 0, DividerX(f, k + 1), bw + f.paddingTop + s + f.paddingBottom,
                 Half(bw), BorderPaint))
  }

  /** `drawUnderline` (PwdInputView.java:329-338): one segment under each cell. */
  function UnderlineLines(f: Frame): (r: seq<DrawCommand>)
    requires f.pwdLength >= 1
    ensures |r| == f.pwdLength
    ensures forall i :: 0 <= i < |r| ==> r[i].DrawLine? && r[i].strokeWidth == f.borderWidth && r[i].paint == BorderPaint
  {
    var y := f.paddingTop + f.pwdSize;
    seq(f.pwdLength, i => DrawLine(CellLeft(f, i), y, CellLeft(f, i) + f.pwdSize, y, f.borderWidth, BorderPaint))
  }

  /**
   * Each underline segment spans exactly its cell: it starts at the cell's
   * left edge, is one cell long, lies on the cell's bottom edge, and the
   * next segment starts one gap further on.
   */
  lemma UnderlineSpansCells(f: Frame)
    requires f.pwdLength >= 1
    ensures var u := UnderlineLines(f);
            && (forall i :: 0 <= i < |u| ==>
                  && u[i].DrawLine?
                  && u[i].x0 == CellLeft(f, i)
                  && u[i].x1 - u[i].x0 == f.pwdSize
                  && u[i].y0 == u[i].y1 == f.paddingTop + f.pwdSize)
            && (forall i :: 0 <= i < |u| - 1 ==> u[i + 1].x0 - u[i].x1 == f.pwdPadding)
  {
    var u := UnderlineLines(f);
    forall i | 0 <= i < |u| - 1
      ensures u[i + 1].x0 - u[i].x1 == f.pwdPadding
    {
      CellStep(f, i);
    }
  }

  /**
   * The last segment ends where a row of this cell size ends, so with the
   * AT_MOST width of the current cell size the underline fills the row.
   */
  lemma UnderlineEndsAtRowWidth(f: Frame)
    requires f.pwdLength >= 1
    ensures UnderlineLines(f)[f.pwdLength - 1].x1
            == f.paddingLeft + RowWidth(f.pwdSize, f.pwdPadding, f.pwdLength)
  {
    var n := f.pwdLength;
    assert (f.pwdSize + f.pwdPadding) * (n - 1) + f.pwdSize == f.pwdSize * n + f.pwdPadding * (n - 1);
  }

  /**
   * With a non-negative gap, each divider of the cheek style (drawn at
   * `DividerX`, as the contract of `CheekLines` says) stands in the gap
   * between the cell before it and the cell after it.
   */
  lemma CheekDividersInGaps(f: Frame)
    requires f.pwdPadding >= 0
    ensures forall i :: 1 <= i < f.pwdLength ==>
              CellLeft(f, i - 1) + f.pwdSize <= DividerX(f, i) <= CellLeft(f, i)
  {
    forall i | 1 <= i < f.pwdLength
      ensures CellLeft(f, i - 1) + f.pwdSize <= DividerX(f, i) <= CellLeft(f, i)
    {
      CellStep(f, i - 1);
    }
  }

  // ---------------------------------------------------------------------
  // Cursor

  /** The condition of `drawCursor` (PwdInputView.java:347): painted on the not-showing phase of the blink. */
  predicate CursorDrawn(f: Frame, isInputComplete: bool, hasFocus: bool)
  {
    !f.isCursorShowing && f.isCursorEnable && !isInputComplete && hasFocus
  }

  /** `drawCursor` (PwdInputView.java:345-355). */
  function CursorLines(f: Frame, cursorPosition: int, isInputComplete: bool, hasFocus: bool): (r: seq<DrawCommand>)
    ensures |r| <= 1
    ensures |r| == 1 <==> CursorDrawn(f, isInputComplete, hasFocus)
    ensures forall i :: 0 <= i < |r| ==> r[i].DrawLine? && r[i].paint == CursorPaint && r[i].strokeWidth == f.cursorWidth
  {
    if CursorDrawn(f, isInputComplete, hasFocus) then
      var x := CellCentre(f, cursorPosition);
      var y := f.paddingTop + Half(f.pwdSize - f.cursorHeight);
      [DrawLine(x, y, x, y + f.cursorHeight, f.cursorWidth, CursorPaint)]
    else []
  }

  /**
   * The cursor is one vertical tick when the condition holds and nothing
   * otherwise; it stands in the glyph column of the cursor's cell, inside
   * that cell, and, when it is no longer than a cell, within the cell's height.
   */
  lemma CursorTick(f: Frame, cursorPosition: int, isInputComplete: bool, hasFocus: bool)
    ensures var r := CursorLines(f, cursorPosition, isInputComplete, hasFocus);
            && (|r| == 1 <==> CursorDrawn(f, isInputComplete, hasFocus))
            && (|r| == 0 <==> !CursorDrawn(f, isInputComplete, hasFocus))
            && (|r| == 1 ==>
                  && r[0].DrawLine? && r[0].paint == CursorPaint
                  && r[0].x0 == r[0].x1 == CellCentre(f, cursorPosition)
                  && r[0].y1 - r[0].y0 == f.cursorHeight
                  && (f.pwdSize >= 0 ==>
                        CellLeft(f, cursorPosition) <= r[0].x0 <= CellLeft(f, cursorPosition) + f.pwdSize)
                  && (0 <= f.cursorHeight <= f.pwdSize ==>
                        f.paddingTop <= r[0].y0 && r[0].y1 <= f.paddingTop + f.pwdSize))
  {
  }

  // ---------------------------------------------------------------------
  // Glyphs

  /** The glyph of one filled cell. */
  function Glyph(f: Frame, c: Cell, i: int): DrawCommand
  {
    DrawText(if f.isCipherEnable then CIPHER_TEXT else Text(c), CellCentre(f, i), f.paddingTop + f.textY, f.cipherTextSize)
  }

  /** A text command on the glyph baseline, in the glyph size, showing the mask or a non-empty text. */
  predicate GlyphRow(f: Frame, c: DrawCommand)
  {
    && c.DrawText?
    && c.y == f.paddingTop + f.textY
    && c.textSize == f.cipherTextSize
    && c.text != ""
  }

  /** The glyphs of the loop of `drawCipherText` after its first `k` iterations. */
  function GlyphsUpTo(f: Frame, cells: seq<Cell>, k: nat): (r: seq<DrawCommand>)
    requires k <= |cells|
    ensures |r| <= k
    ensures forall i :: 0 <= i < |r| ==> GlyphRow(f, r[i])
  {
    if k == 0 then []
    else GlyphsUpTo(f, cells, k - 1) + (if TextEmpty(cells[k - 1]) then [] else [Glyph(f, cells[k - 1], k - 1)])
  }

  /** `drawCipherText` (PwdInputView.java:362-386): one glyph per non-empty cell, left to right. */
  function Glyphs(f: Frame, cells: seq<Cell>): (r: seq<DrawCommand>)
    requires |cells| == f.pwdLength
    ensures |r| <= f.pwdLength
    ensures forall i :: 0 <= i < |r| ==> GlyphRow(f, r[i])
  {
    GlyphsUpTo(f, cells, |cells|)
  }

  /** Under the invariant, the first k glyphs belong to the first k cells, for every k up to the cursor. */
  lemma {:induction false} GlyphsUpToUnderInv(f: Frame, s: Store, k: nat)
    requires Inv(s) && k <= |s.cells|
    ensures var m := Min(k, s.cursor);
            var g := GlyphsUpTo(f, s.cells, k);
            && |g| == m
            && forall i :: 0 <= i < m ==> g[i] == Glyph(f, s.cells[i], i)
    decreases k
  {
    if k > 0 {
      GlyphsUpToUnderInv(f, s, k - 1);
      if k - 1 < s.cursor {
        assert !TextEmpty(s.cells[k - 1]);
      } else {
        assert TextEmpty(s.cells[k - 1]);
      }
    }
  }

  /**
   * Under the invariant there is one glyph per digit entered, at that
   * cell's centre: the mask when cipher text is on, the digit otherwise.
   */
  lemma GlyphsUnderInv(f: Frame, s: Store)
    requires Inv(s) && |s.cells| == f.pwdLength
    ensures var g := Glyphs(f, s.cells);
            && |g| == s.cursor
            && forall i :: 0 <= i < s.cursor ==>
                 g[i] == DrawText(if f.isCipherEnable then CIPHER_TEXT else s.cells[i].value,
                              CellCentre(f, i), f.paddingTop + f.textY, f.cipherTextSize)
  {
    GlyphsUpToUnderInv(f, s, |s.cells|);
  }

  /** The texts of a command list, concatenated in drawing order. */
  function Texts(cmds: seq<DrawCommand>): string
  {
    if cmds == [] then ""
    else Texts(cmds[..|cmds| - 1]) + (if cmds[|cmds| - 1].DrawText? then cmds[|cmds| - 1].text else "")
  }

  /** Text commands that each show one character of `p`, in order, spell `p`. */
  lemma {:induction false} TextsOfCharacters(g: seq<DrawCommand>, p: string)
    requires |g| == |p|
    requires forall i :: 0 <= i < |g| ==> g[i].DrawText? && g[i].text == [p[i]]
    ensures Texts(g) == p
    decreases |g|
  {
    if g != [] {
      var n := |g| - 1;
      TextsOfCharacters(g[..n], p[..n]);
      assert p == p[..n] + [p[n]];
    }
  }

  /**
   * With cipher text off and the invariant holding, the glyphs spell the
   * password `getPwdInfo` reports; with it on, they are one mask per digit.
   */
  lemma GlyphsSpellPassword(f: Frame, s: Store)
    requires Inv(s) && |s.cells| == f.pwdLength
    ensures !f.isCipherEnable ==>
              PwdInfo(s.cells) == (if s.cursor == 0 then None else Some(Texts(Glyphs(f, s.cells))))
    ensures f.isCipherEnable ==>
              forall i :: 0 <= i < |Glyphs(f, s.cells)| ==> Glyphs(f, s.cells)[i].DrawText? && Glyphs(f, s.cells)[i].text == CIPHER_TEXT
  {
    GlyphsUnderInv(f, s);
    PwdInfoUnderInv(s);
    if !f.isCipherEnable && s.cursor > 0 {
      TextsOfCharacters(Glyphs(f, s.cells), PwdInfo(s.cells).value);
    }
  }

  // ---------------------------------------------------------------------
  // The whole frame

  /** The border commands for the view's `mode`; an unknown mode draws no border. */
  function Border(f: Frame): (r: seq<DrawCommand>)
    requires f.pwdLength >= 1
    ensures |r| == (if f.mode == BORDER_STYLE_CHEEK then f.pwdLength + 3
                    else if f.mode == BORDER_STYLE_UNDERLINE then f.pwdLength else 0)
    ensures forall i :: 0 <= i < |r| ==> r[i].DrawLine? && r[i].paint == BorderPaint
  {
    if f.mode == BORDER_STYLE_CHEEK then CheekLines(f)
    else if f.mode == BORDER_STYLE_UNDERLINE then UnderlineLines(f)
    else []
  }

  /** `onDraw` (PwdInputView.java:277-293): border, then cursor, then glyphs. */
  function OnDraw(f: Frame, s: Store, hasFocus: bool): (r: seq<DrawCommand>)
    requires f.pwdLength >= 1 && |s.cells| == f.pwdLength
    ensures |Border(f)| <= |r| <= |Border(f)| + 1 + f.pwdLength
    ensures r[..|Border(f)|] == Border(f)
    ensures forall i :: 0 <= i < |r| ==> (r[i].DrawText? <==> i >= |Border(f)| + |CursorLines(f, s.cursor, s.complete, hasFocus)|)
  {
    Border(f) + CursorLines(f, s.cursor, s.complete, hasFocus) + Glyphs(f, s.cells)
  }

  /**
   * Under the invariant a frame holds the border, at most one cursor tick
   * and exactly one glyph per entered digit, in that order; the cursor
   * tick, when drawn, stands in an empty cell.
   */
  lemma FrameLayout(f: Frame, s: Store, hasFocus: bool)
    requires f.pwdLength >= 1 && Inv(s) && |s.cells| == f.pwdLength
    ensures var d := OnDraw(f, s, hasFocus);
            var b := |Border(f)|;
            var c := if CursorDrawn(f, s.complete, hasFocus) then 1 else 0;
            && |d| == b + c + s.cursor
            && d[..b] == Border(f)
            && (forall i :: b <= i < b + c ==> d[i].DrawLine? && d[i].paint == CursorPaint)
            && (forall i :: b + c <= i < |d| ==> d[i].DrawText?)
            && (c == 1 ==> s.cursor < |s.cells| && s.cells[s.cursor] == None)
  {
    GlyphsUnderInv(f, s);
    CursorTick(f, s.cursor, s.complete, hasFocus);
  }

  /**
   * The restore finding seen on screen: a full one-cell password restored
   * as written into a new view keeps `isInputComplete` false, so a focused
   * view in the painted phase draws the cursor tick in the column of a
   * second cell, to the right of the only one.
   */
  lemma CursorPastEndAfterRestoreAsWritten(f: Frame)
    requires f.pwdLength == 1 && f.isCursorEnable && !f.isCursorShowing
    requires f.pwdSize >= 0 && f.pwdPadding >= 0
    ensures var full := Store([Some("1")], 1, true);
            var r := RestoreAsWritten(Empty(1), Save(full));
            var d := OnDraw(f, r, true);
            var b := |Border(f)|;
            && b < |d|
            && d[b].DrawLine? && d[b].paint == CursorPaint
            && d[b].x0 == CellCentre(f, 1)
            && CellLeft(f, 0) + f.pwdSize <= d[b].x0
  {
    var r := RestoreAsWritten(Empty(1), Save(Store([Some("1")], 1, true)));
    assert r == Store([Some("1")], 1, false);
    CursorTick(f, 1, false, true);
  }
}
