/**
 * The password cells of PwdInputView: the array `pwdData` of nullable strings,
 * the index `cursorPosition` of the next cell to fill and the flag
 * `isInputComplete`, together with the read-out `getPwdInfo` and the
 * saved-state bundle.
 */
module CellStore {
  import opened Wrappers

  /** One element of `pwdData`: a Java String that may be null. */
  type Cell = Option<string>

  /** `TextUtils.isEmpty`: the string is null or has no characters. */
  predicate TextEmpty(c: Cell)
    ensures TextEmpty(c) <==> Text(c) == ""
  {
    c.None? || c.value == ""
  }

  /** The characters a cell contributes to a StringBuilder (a null cell is never appended). */
  function Text(c: Cell): string
  {
    if c.Some? then c.value else ""
  }

  /** A string of one decimal digit, as `String.valueOf` prints 0..9. */
  predicate IsDigitText(t: string)
  {
    |t| == 1 && '0' <= t[0] <= '9'
  }

  /** `String.valueOf(d)` for a decimal digit `d`. */
  function DigitText(d: int): (t: string)
    requires 0 <= d <= 9
    ensures IsDigitText(t)
    ensures t[0] as int - '0' as int == d
  {
    [('0' as int + d) as char]
  }

  /** The mutable input state of the view, as a value. */
  datatype Store = Store(cells: seq<Cell>, cursor: int, complete: bool)

  /**
   * What every key handler relies on for its array accesses: `pwdData` has
   * at least one cell (DEL reads `pwdData[0]`) and the cursor lies in
   * [0, pwdLength] where pwdLength is the number of cells.
   */
  predicate Shaped(s: Store)
  {
    1 <= |s.cells| && 0 <= s.cursor <= |s.cells|
  }

  /**
   * The invariant key events keep: the cells before the cursor each hold
   * one digit, the cells from the cursor on are null, and the completion
   * flag says that the cursor has reached the end.
   */
  predicate Inv(s: Store)
  {
    Shaped(s) &&
    (forall i :: 0 <= i < s.cursor ==> s.cells[i].Some? && IsDigitText(s.cells[i].value)) &&
    (forall i :: s.cursor <= i < |s.cells| ==> s.cells[i] == None) &&
    s.complete == (s.cursor == |s.cells|)
  }

  /** The state after construction: `new String[pwdLength]`, cursor 0, not complete. */
  function Empty(n: int): (s: Store)
    requires n >= 1
    ensures Inv(s) && |s.cells| == n && s.cursor == 0
    ensures forall i :: 0 <= i < n ==> TextEmpty(s.cells[i])
  {
    Store(seq(n, _ => None), 0, false)
  }

  /**
   * The index where the loop of `getPwdInfo` stops: the first empty cell,
   * or the number of cells when none is empty.
   */
  function PrefixLen(cells: seq<Cell>): (k: nat)
    ensures k <= |cells|
    ensures forall j :: 0 <= j < k ==> !TextEmpty(cells[j])
    ensures k < |cells| ==> TextEmpty(cells[k])
  {
    if cells == [] || TextEmpty(cells[0]) then 0
    else
      var k' := PrefixLen(cells[1..]);
      assert forall j :: 1 <= j < k' + 1 ==> cells[j] == cells[1..][j - 1];
      1 + k'
  }

  /** The smaller of two counts, such as the digits typed and the cells there are. */
  function Min(a: int, b: int): int
  {
    if a <= b then a else b
  }

  /** The texts of the cells appended left to right, as a StringBuilder does. */
  function Concat(cells: seq<Cell>): string
  {
    if cells == [] then "" else Concat(cells[..|cells| - 1]) + Text(cells[|cells| - 1])
  }

  /** `getPwdInfo` (PwdInputView.java:516-532): the prefix text, null when it is empty. */
  function PwdInfo(cells: seq<Cell>): (r: Option<string>)
    ensures r != Some("")
    ensures r.Some? ==> |cells| > 0 && !TextEmpty(cells[0])
  {
    var t := Concat(cells[..PrefixLen(cells)]);
    if t == "" then None else Some(t)
  }

  /** The first cell's text is where the concatenation starts. */
  lemma {:induction false} ConcatStartsWithFirst(cells: seq<Cell>)
    requires |cells| >= 1
    ensures |Concat(cells)| >= |Text(cells[0])|
    ensures Concat(cells)[..|Text(cells[0])|] == Text(cells[0])
  {
    if |cells| > 1 {
      var init := cells[..|cells| - 1];
      assert init[0] == cells[0];
      ConcatStartsWithFirst(init);
      assert Concat(cells) == Concat(init) + Text(cells[|cells| - 1]);
    } else {
      assert cells[..0] == [];
    }
  }

  /** `getPwdInfo` returns null exactly when the first cell is empty. */
  lemma PwdInfoNullIffFirstEmpty(cells: seq<Cell>)
    requires |cells| >= 1
    ensures PwdInfo(cells).None? <==> TextEmpty(cells[0])
  {
    var k := PrefixLen(cells);
    if !TextEmpty(cells[0]) {
      assert cells[..k][0] == cells[0];
      ConcatStartsWithFirst(cells[..k]);
    } else {
      assert cells[..k] == [];
    }
  }

  /** Every cell of a digit-only sequence contributes exactly one character. */
  lemma {:induction false} ConcatOfDigits(cells: seq<Cell>)
    requires forall i :: 0 <= i < |cells| ==> cells[i].Some? && IsDigitText(cells[i].value)
    ensures |Concat(cells)| == |cells|
    ensures forall i :: 0 <= i < |cells| ==> [Concat(cells)[i]] == Text(cells[i])
  {
    if cells != [] {
      var init := cells[..|cells| - 1];
      ConcatOfDigits(init);
    }
  }

  /**
   * Under the invariant, `getPwdInfo` reports exactly the digits before
   * the cursor, in order, and null when the cursor is at 0.
   */
  lemma PwdInfoUnderInv(s: Store)
    requires Inv(s)
    ensures PrefixLen(s.cells) == s.cursor
    ensures s.cursor == 0 ==> PwdInfo(s.cells) == None
    ensures s.cursor > 0 ==>
              && PwdInfo(s.cells).Some?
              && |PwdInfo(s.cells).value| == s.cursor
              && forall i :: 0 <= i < s.cursor ==> [PwdInfo(s.cells).value[i]] == Text(s.cells[i])
  {
    var k := PrefixLen(s.cells);
    assert s.cursor < |s.cells| ==> TextEmpty(s.cells[s.cursor]);
    assert k < |s.cells| ==> TextEmpty(s.cells[k]);
    assert k == s.cursor;
    ConcatOfDigits(s.cells[..k]);
  }

  /** The bundle `onSaveInstanceState` writes: the `pwd` array and `cursorPosition`. */
  datatype Saved = Saved(pwd: seq<Cell>, cursorPosition: int)

  /** `onSaveInstanceState` (PwdInputView.java:208-214). */
  function Save(s: Store): (b: Saved)
    ensures b.pwd == s.cells && b.cursorPosition == s.cursor
  {
    Saved(s.cells, s.cursor)
  }

  /**
   * `onRestoreInstanceState` as written (PwdInputView.java:222-230): the
   * cells and the cursor are replaced and `isInputComplete` keeps whatever
   * the restoring view had.
   */
  function RestoreAsWritten(s: Store, b: Saved): (r: Store)
    ensures r.cells == b.pwd && r.cursor == b.cursorPosition && r.complete == s.complete
  {
    Store(b.pwd, b.cursorPosition, s.complete)
  }

  /** A restore that also derives the completion flag from the restored cursor. */
  function Restore(s: Store, b: Saved): (r: Store)
    ensures r.cells == b.pwd && r.cursor == b.cursorPosition
    ensures r.complete <==> b.cursorPosition == |b.pwd|
  {
    Store(b.pwd, b.cursorPosition, b.cursorPosition == |b.pwd|)
  }

  /**
   * A full password saved and restored into a freshly built view (as on a
   * rotation) leaves a state outside the invariant: every cell is filled
   * but the view does not consider the input complete.
   */
  lemma RestoreAsWrittenLosesCompletion()
    ensures var full := Store([Some("1")], 1, true);
            Inv(full) && !Inv(RestoreAsWritten(Empty(1), Save(full)))
            && !RestoreAsWritten(Empty(1), Save(full)).complete
  {
    var full := Store([Some("1")], 1, true);
    assert IsDigitText(full.cells[0].value);
  }

  /**
   * With the derived flag, saving a valid state and restoring it into any
   * view of the same length gives back exactly the saved state.
   */
  lemma RestoreRoundTrip(s: Store, t: Store)
    requires Inv(s) && Shaped(t) && |t.cells| == |s.cells|
    ensures Restore(t, Save(s)) == s
    ensures Inv(Restore(t, Save(s)))
  {
  }
}
