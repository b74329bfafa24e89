/**
 * The key handling of PwdInputView as a state machine on values:
 * `PwdKeyListener.onKey`, `addPwd` and `deletePwdOfOne`, with the
 * listener callbacks collected as a list of events in delivery order.
 */
module KeyInput {
  import opened Wrappers
  import opened CellStore

  /** `KeyEvent.ACTION_DOWN`. */
  const ACTION_DOWN: int := 0
  /** `KeyEvent.KEYCODE_0`; the digit keys are KEYCODE_0..KEYCODE_9. */
  const KEYCODE_0: int := 7
  /** `KeyEvent.KEYCODE_9`. */
  const KEYCODE_9: int := 16
  /** `KeyEvent.KEYCODE_ENTER`. */
  const KEYCODE_ENTER: int := 66
  /** `KeyEvent.KEYCODE_DEL`. */
  const KEYCODE_DEL: int := 67

  /** A key event as `onKey` sees it. */
  datatype KeyEvent = KeyEvent(action: int, keyCode: int)

  /** One call on `PwdInputListener`. */
  datatype PwdEvent =
    | Change(text: string)                              // pwdChange(text)
    | Complete                                          // pwdComplete()
    | Confirm(password: Option<string>, isComplete: bool) // keyConfirmPress(password, isComplete)

  /** What `addPwd` leaves behind: the new state, its return value, and the callbacks it made. */
  datatype Added = Added(store: Store, addText: Option<string>, fired: seq<PwdEvent>)

  /** What `deletePwdOfOne` leaves behind: the new state and the removed value. */
  datatype Deleted = Deleted(store: Store, deleteInfo: Cell)

  /** What `onKey` leaves behind: the new state, its return value, and the callbacks it made. */
  datatype Outcome = Outcome(store: Store, consumed: bool, events: seq<PwdEvent>)

  predicate IsDigitKey(keyCode: int)
  {
    KEYCODE_0 <= keyCode <= KEYCODE_9
  }

  /**
   * `addPwd` (PwdInputView.java:495-509): writes `info` at the cursor and
   * advances it when there is room; reaching the end sets the completion
   * flag and calls `pwdComplete` when a listener is set.
   */
  function AddPwd(s: Store, listening: bool, info: string): (a: Added)
    requires Shaped(s)
    ensures Shaped(a.store) && |a.store.cells| == |s.cells|
    ensures a.addText.Some? <==> s.cursor < |s.cells|
    ensures Complete in a.fired <==> listening && s.cursor == |s.cells| - 1
  {
    if s.cursor < |s.cells| then
      var cells := s.cells[s.cursor := Some(info)];
      var cursor := s.cursor + 1;
      if cursor == |s.cells| then
        Added(Store(cells, cursor, true), Some(info), if listening then [Complete] else [])
      else
        Added(Store(cells, cursor, s.complete), Some(info), [])
    else
      Added(s, None, [])
  }

  /**
   * `deletePwdOfOne` (PwdInputView.java:475-487): clears the cell before
   * the cursor and moves the cursor back; at cursor 0 it clears cell 0 and
   * leaves the cursor. Either way the input is no longer complete.
   */
  function DeletePwdOfOne(s: Store): (d: Deleted)
    requires Shaped(s)
    ensures Shaped(d.store) && |d.store.cells| == |s.cells| && !d.store.complete
    ensures d.deleteInfo == s.cells[if s.cursor > 0 then s.cursor - 1 else 0]
  {
    if s.cursor > 0 then
      Deleted(Store(s.cells[s.cursor - 1 := None], s.cursor - 1, false), s.cells[s.cursor - 1])
    else
      Deleted(Store(s.cells[0 := None], 0, false), s.cells[0])
  }

  /** The `pwdChange` call `onKey` makes after adding or deleting: only with a listener and a non-empty text. */
  function ChangeFor(listening: bool, c: Cell): (r: seq<PwdEvent>)
    ensures r == [] || r == [Change(Text(c))]
    ensures r != [] <==> listening && Text(c) != ""
  {
    if listening && !TextEmpty(c) then [Change(c.value)] else []
  }

  /** `PwdKeyListener.onKey` (PwdInputView.java:435-467). */
  function OnKey(s: Store, listening: bool, ev: KeyEvent): (o: Outcome)
    requires Shaped(s)
    ensures Shaped(o.store) && |o.store.cells| == |s.cells|
    ensures !o.consumed ==> o.store == s && o.events == []
  {
    if ev.action != ACTION_DOWN then Outcome(s, false, [])
    else if ev.keyCode == KEYCODE_DEL then
      if TextEmpty(s.cells[0]) then Outcome(s, true, [])
      else
        var d := DeletePwdOfOne(s);
        Outcome(d.store, true, ChangeFor(listening, d.deleteInfo))
    else if IsDigitKey(ev.keyCode) then
      if s.complete then Outcome(s, true, [])
      else
        var a := AddPwd(s, listening, DigitText(ev.keyCode - 7));
        Outcome(a.store, true, a.fired + ChangeFor(listening, a.addText))
    else if ev.keyCode == KEYCODE_ENTER then
      Outcome(s, true, if listening then [Confirm(PwdInfo(s.cells), s.complete)] else [])
    else Outcome(s, false, [])
  }

  // ---------------------------------------------------------------------
  // One key at a time

  /**
   * A digit key while the input is not complete and there is room writes
   * that digit at the cursor, advances the cursor and leaves every other
   * cell alone. With a listener, `pwdComplete` (when the end is reached)
   * comes before the `pwdChange` for the digit.
   */
  lemma DigitEntry(s: Store, listening: bool, keyCode: int)
    requires Shaped(s) && !s.complete && s.cursor < |s.cells| && IsDigitKey(keyCode)
    ensures var o := OnKey(s, listening, KeyEvent(ACTION_DOWN, keyCode));
            && o.consumed
            && o.store.cursor == s.cursor + 1
            && o.store.cells[s.cursor] == Some(DigitText(keyCode - KEYCODE_0))
            && (forall j :: 0 <= j < |s.cells| && j != s.cursor ==> o.store.cells[j] == s.cells[j])
            && (o.store.complete <==> s.cursor + 1 == |s.cells|)
            && o.events == (if listening && s.cursor + 1 == |s.cells| then [Complete] else [])
                           + (if listening then [Change(DigitText(keyCode - KEYCODE_0))] else [])
  {
  }

  /** Once the input is complete, digit keys are consumed and change nothing. */
  lemma DigitWhenComplete(s: Store, listening: bool, keyCode: int)
    requires Shaped(s) && s.complete && IsDigitKey(keyCode)
    ensures OnKey(s, listening, KeyEvent(ACTION_DOWN, keyCode)) == Outcome(s, true, [])
  {
  }

  /**
   * A digit key with every cell filled but the flag false (the state the
   * as-written restore can leave) is consumed; `addPwd` finds no room and
   * returns null, so nothing changes and no callback is made.
   */
  lemma DigitWhenFullButIncomplete(s: Store, listening: bool, keyCode: int)
    requires Shaped(s) && !s.complete && s.cursor == |s.cells| && IsDigitKey(keyCode)
    ensures AddPwd(s, listening, DigitText(keyCode - KEYCODE_0)) == Added(s, None, [])
    ensures OnKey(s, listening, KeyEvent(ACTION_DOWN, keyCode)) == Outcome(s, true, [])
  {
  }

  /**
   * Under the invariant, `pwdComplete` is called exactly on the step that
   * moves the state from incomplete to complete, which is a digit typed
   * into the last cell; on that step it is followed by the `pwdChange`
   * for the digit and by nothing else.
   */
  lemma CompletionStep(s: Store, listening: bool, ev: KeyEvent)
    requires Inv(s)
    ensures var o := OnKey(s, listening, ev);
            && (!s.complete && o.store.complete
                <==> ev.action == ACTION_DOWN && IsDigitKey(ev.keyCode) && s.cursor == |s.cells| - 1)
            && (Complete in o.events <==> listening && !s.complete && o.store.complete)
            && (Complete in o.events ==> o.events == [Complete, Change(DigitText(ev.keyCode - KEYCODE_0))])
  {
    var o := OnKey(s, listening, ev);
    if ev.action == ACTION_DOWN && ev.keyCode == KEYCODE_DEL && !TextEmpty(s.cells[0]) {
      assert o.events == ChangeFor(listening, DeletePwdOfOne(s).deleteInfo);
    }
  }

  /**
   * DEL as written. With cell 0 empty it is consumed and changes nothing.
   * Otherwise it clears the cell before the cursor (cell 0 when the cursor
   * is 0, where the cursor stays), clears the completion flag, and calls
   * `pwdChange` with the removed text only when that text is not empty.
   */
  lemma DeleteKey(s: Store, listening: bool)
    requires Shaped(s)
    ensures var o := OnKey(s, listening, KeyEvent(ACTION_DOWN, KEYCODE_DEL));
            && o.consumed
            && (TextEmpty(s.cells[0]) ==> o.store == s && o.events == [])
            && (!TextEmpty(s.cells[0]) && s.cursor > 0 ==>
                  o.store == Store(s.cells[s.cursor - 1 := None], s.cursor - 1, false)
                  && o.events == ChangeFor(listening, s.cells[s.cursor - 1]))
            && (!TextEmpty(s.cells[0]) && s.cursor == 0 ==>
                  o.store == Store(s.cells[0 := None], 0, false)
                  && o.events == ChangeFor(listening, s.cells[0]))
  {
  }

  /**
   * Under the invariant DEL undoes the last digit: at cursor 0 it is
   * swallowed, otherwise it nulls the last filled cell, steps the cursor
   * back and reports the removed digit.
   */
  lemma DeleteUnderInv(s: Store, listening: bool)
    requires Inv(s)
    ensures var o := OnKey(s, listening, KeyEvent(ACTION_DOWN, KEYCODE_DEL));
            && o.consumed
            && (s.cursor == 0 ==> o.store == s && o.events == [])
            && (s.cursor > 0 ==>
                  o.store == Store(s.cells[s.cursor - 1 := None], s.cursor - 1, false)
                  && o.events == (if listening then [Change(s.cells[s.cursor - 1].value)] else []))
  {
    if s.cursor > 0 {
      assert !TextEmpty(s.cells[0]);
    }
  }

  /**
   * A digit accepted and immediately deleted: the state is the one before
   * the digit and the deletion reports that digit.
   */
  lemma AddThenDelete(s: Store, listening: bool, keyCode: int)
    requires Inv(s) && !s.complete && IsDigitKey(keyCode)
    ensures var o1 := OnKey(s, listening, KeyEvent(ACTION_DOWN, keyCode));
            var o2 := OnKey(o1.store, listening, KeyEvent(ACTION_DOWN, KEYCODE_DEL));
            && o2.store == s
            && o2.events == (if listening then [Change(DigitText(keyCode - KEYCODE_0))] else [])
  {
    var o1 := OnKey(s, listening, KeyEvent(ACTION_DOWN, keyCode));
    var t := o1.store;
    assert t.cursor == s.cursor + 1 && t.cells[s.cursor] == Some(DigitText(keyCode - KEYCODE_0));
    assert t.cells[0] == if s.cursor == 0 then Some(DigitText(keyCode - KEYCODE_0)) else s.cells[0];
    var o2 := OnKey(t, listening, KeyEvent(ACTION_DOWN, KEYCODE_DEL));
    assert o2.store.cells == s.cells;
  }

  /** Every key event keeps the invariant. */
  lemma OnKeyKeepsInv(s: Store, listening: bool, ev: KeyEvent)
    requires Inv(s)
    ensures Inv(OnKey(s, listening, ev).store)
  {
    if ev.action == ACTION_DOWN && ev.keyCode == KEYCODE_DEL && s.cursor == 0 {
      assert TextEmpty(s.cells[0]);
    }
  }

  /**
   * ENTER is consumed, changes nothing, and with a listener reports the
   * password read-out and the completion flag.
   */
  lemma ConfirmKey(s: Store, listening: bool)
    requires Shaped(s)
    ensures OnKey(s, listening, KeyEvent(ACTION_DOWN, KEYCODE_ENTER))
            == Outcome(s, true, if listening then [Confirm(PwdInfo(s.cells), s.complete)] else [])
  {
  }

  /** Any key other than DEL, a digit or ENTER, and any action other than ACTION_DOWN, is passed on untouched. */
  lemma OtherKeys(s: Store, listening: bool, ev: KeyEvent)
    requires Shaped(s)
    requires ev.action != ACTION_DOWN
             || (ev.keyCode != KEYCODE_DEL && !IsDigitKey(ev.keyCode) && ev.keyCode != KEYCODE_ENTER)
    ensures OnKey(s, listening, ev) == Outcome(s, false, [])
  {
  }

  /**
   * What the stale flag of `CellStore.RestoreAsWritten` does to the user:
   * a one-cell view whose full password was saved and restored into a new
   * view reports that password as incomplete on ENTER, and still paints
   * the cursor, where the view that saved it reports it complete.
   */
  lemma ConfirmAfterRestoreAsWritten()
    ensures var full := Store([Some("1")], 1, true);
            var restored := RestoreAsWritten(Empty(1), Save(full));
            && OnKey(full, true, KeyEvent(ACTION_DOWN, KEYCODE_ENTER)).events == [Confirm(Some("1"), true)]
            && OnKey(restored, true, KeyEvent(ACTION_DOWN, KEYCODE_ENTER)).events == [Confirm(Some("1"), false)]
  {
    var cells := [Some("1")];
    assert PrefixLen(cells) == 1;
    assert cells[..1] == cells;
    assert Concat(cells) == "1" by {
      assert cells[..0] == [];
    }
  }

  // ---------------------------------------------------------------------
  // Sequences of keys

  /** The state and the callbacks after feeding keys to `onKey` one after another. */
  datatype Trace = Trace(store: Store, events: seq<PwdEvent>)

  function Run(s: Store, listening: bool, keys: seq<KeyEvent>): (t: Trace)
    requires Shaped(s)
    ensures Shaped(t.store) && |t.store.cells| == |s.cells|
    decreases |keys|
  {
    if keys == [] then Trace(s, [])
    else
      var t0 := Run(s, listening, keys[..|keys| - 1]);
      var o := OnKey(t0.store, listening, keys[|keys| - 1]);
      Trace(o.store, t0.events + o.events)
  }

  /** Starting from the state after construction, any sequence of key events keeps the invariant. */
  lemma {:induction false} RunKeepsInv(n: int, listening: bool, keys: seq<KeyEvent>)
    requires n >= 1
    ensures Inv(Run(Empty(n), listening, keys).store)
    decreases |keys|
  {
    if keys != [] {
      RunKeepsInv(n, listening, keys[..|keys| - 1]);
      OnKeyKeepsInv(Run(Empty(n), listening, keys[..|keys| - 1]).store, listening, keys[|keys| - 1]);
    }
  }

  predicate AllDigits(ds: seq<int>)
  {
    forall i :: 0 <= i < |ds| ==> 0 <= ds[i] <= 9
  }

  /** The key events for typing the digits `ds`. */
  function DigitKeys(ds: seq<int>): (keys: seq<KeyEvent>)
    requires AllDigits(ds)
    ensures |keys| == |ds|
    ensures forall i :: 0 <= i < |ds| ==> keys[i] == KeyEvent(ACTION_DOWN, KEYCODE_0 + ds[i])
  {
    seq(|ds|, i requires 0 <= i < |ds| => KeyEvent(ACTION_DOWN, KEYCODE_0 + ds[i]))
  }

  /** The state of `n` cells holding the digits `ds` at the front. */
  function Filled(n: int, ds: seq<int>): (s: Store)
    requires n >= 1 && |ds| <= n && AllDigits(ds)
    ensures Inv(s) && |s.cells| == n && s.cursor == |ds|
  {
    Store(seq(n, i requires 0 <= i < n => if i < |ds| then Some(DigitText(ds[i])) else None), |ds|, |ds| == n)
  }

  /**
   * The callbacks typing `ds` into `n` empty cells should make: one
   * `pwdChange` per accepted digit, with `pwdComplete` just before the
   * change for the n-th digit, and nothing for digits beyond the n-th.
   */
  function TypedEvents(n: int, listening: bool, ds: seq<int>): seq<PwdEvent>
    requires AllDigits(ds)
  {
    if ds == [] then []
    else
      var last := ds[|ds| - 1];
      TypedEvents(n, listening, ds[..|ds| - 1])
      + (if listening && |ds| <= n
         then (if |ds| == n then [Complete] else []) + [Change(DigitText(last))]
         else [])
  }

  /** One more digit typed into a partly filled view lands in the next cell. */
  lemma TypeOneMore(n: int, listening: bool, init: seq<int>, d: int)
    requires n >= 1 && AllDigits(init) && |init| < n && 0 <= d <= 9
    ensures AllDigits(init + [d])
    ensures OnKey(Filled(n, init), listening, KeyEvent(ACTION_DOWN, KEYCODE_0 + d))
            == Outcome(Filled(n, init + [d]), true,
                       (if listening && |init| + 1 == n then [Complete] else []) + (if listening then [Change(DigitText(d))] else []))
  {
    assert forall i :: 0 <= i < |init| ==> (init + [d])[i] == init[i];
    DigitEntry(Filled(n, init), listening, KEYCODE_0 + d);
    assert OnKey(Filled(n, init), listening, KeyEvent(ACTION_DOWN, KEYCODE_0 + d)).store.cells
           == Filled(n, init + [d]).cells;
  }

  /**
   * Typing digits into the empty view fills the first min(|ds|, n) cells
   * with those digits, in order, and makes exactly the callbacks of
   * `TypedEvents`; digits after the n-th are swallowed.
   */
  lemma {:induction false} TypeDigits(n: int, listening: bool, ds: seq<int>)
    requires n >= 1 && AllDigits(ds)
    ensures Run(Empty(n), listening, DigitKeys(ds))
            == Trace(Filled(n, ds[..Min(|ds|, n)]), TypedEvents(n, listening, ds))
    decreases |ds|
  {
    if ds == [] {
      assert Filled(n, []) == Empty(n);
    } else {
      var init := ds[..|ds| - 1];
      assert AllDigits(init);
      assert DigitKeys(ds)[..|ds| - 1] == DigitKeys(init);
      assert DigitKeys(ds)[|ds| - 1] == KeyEvent(ACTION_DOWN, KEYCODE_0 + ds[|ds| - 1]);
      TypeDigits(n, listening, init);
      TypeStep(n, listening, ds);
    }
  }

  /** The last digit of `ds`, typed after the others, as `TypedEvents` and `Filled` describe it. */
  lemma TypeStep(n: int, listening: bool, ds: seq<int>)
    requires n >= 1 && AllDigits(ds) && ds != []
    ensures AllDigits(ds[..|ds| - 1])
    ensures var init := ds[..|ds| - 1];
            var o := OnKey(Filled(n, init[..Min(|init|, n)]), listening, KeyEvent(ACTION_DOWN, KEYCODE_0 + ds[|ds| - 1]));
            Trace(o.store, TypedEvents(n, listening, init) + o.events)
            == Trace(Filled(n, ds[..Min(|ds|, n)]), TypedEvents(n, listening, ds))
  {
    var init := ds[..|ds| - 1];
    var d := ds[|ds| - 1];
    assert AllDigits(init);
    if |ds| <= n {
      assert init[..Min(|init|, n)] == init;
      assert ds[..Min(|ds|, n)] == init + [d];
      TypeOneMore(n, listening, init, d);
    } else {
      var s0 := Filled(n, init[..Min(|init|, n)]);
      assert s0.complete;
      DigitWhenComplete(s0, listening, KEYCODE_0 + d);
      assert ds[..Min(|ds|, n)] == init[..Min(|init|, n)];
    }
  }

  /** The digits `ds` as one string. */
  function DigitsText(ds: seq<int>): string
    requires AllDigits(ds)
  {
    if ds == [] then "" else DigitsText(ds[..|ds| - 1]) + DigitText(ds[|ds| - 1])
  }

  /** The number of `pwdComplete` calls in a list of callbacks. */
  function CountComplete(evs: seq<PwdEvent>): nat
  {
    if evs == [] then 0
    else CountComplete(evs[..|evs| - 1]) + (if evs[|evs| - 1] == Complete then 1 else 0)
  }

  lemma {:induction false} CountCompleteAppend(a: seq<PwdEvent>, b: seq<PwdEvent>)
    ensures CountComplete(a + b) == CountComplete(a) + CountComplete(b)
    decreases |b|
  {
    if b != [] {
      assert (a + b)[..|a + b| - 1] == a + b[..|b| - 1];
      CountCompleteAppend(a, b[..|b| - 1]);
    } else {
      assert a + b == a;
    }
  }

  /**
   * With a listener, typing digits into the empty view calls
   * `pwdComplete` once when at least n digits were typed and never
   * otherwise; further digits do not call it again.
   */
  lemma {:induction false} CompleteOnce(n: int, ds: seq<int>)
    requires n >= 1 && AllDigits(ds)
    ensures CountComplete(Run(Empty(n), true, DigitKeys(ds)).events) == if |ds| >= n then 1 else 0
  {
    TypeDigits(n, true, ds);
    TypedEventsCount(n, ds);
  }

  lemma {:induction false} TypedEventsCount(n: int, ds: seq<int>)
    requires n >= 1 && AllDigits(ds)
    ensures CountComplete(TypedEvents(n, true, ds)) == if |ds| >= n then 1 else 0
    decreases |ds|
  {
    if ds != [] {
      var init := ds[..|ds| - 1];
      assert AllDigits(init);
      TypedEventsCount(n, init);
      var tail := if |ds| <= n
                  then (if |ds| == n then [Complete] else []) + [Change(DigitText(ds[|ds| - 1]))]
                  else [];
      CountCompleteAppend(TypedEvents(n, true, init), tail);
      if |ds| <= n {
        assert tail[..|tail| - 1] == (if |ds| == n then [Complete] else []);
        if |ds| == n {
          assert [Complete][..0] == [];
        }
      }
    }
  }

  lemma {:induction false} ConcatFilled(n: int, ds: seq<int>)
    requires n >= 1 && |ds| <= n && AllDigits(ds)
    ensures Concat(Filled(n, ds).cells[..|ds|]) == DigitsText(ds)
    decreases |ds|
  {
    if ds != [] {
      var init := ds[..|ds| - 1];
      assert AllDigits(init);
      ConcatFilled(n, init);
      var c := Filled(n, ds).cells[..|ds|];
      assert c[..|ds| - 1] == Filled(n, init).cells[..|init|];
    }
  }

  /**
   * After typing digits into the empty view, `getPwdInfo` reports the
   * first min(|ds|, n) of them in order (null when none was typed) and the
   * view is complete exactly when n digits were accepted.
   */
  lemma TypedPassword(n: int, listening: bool, ds: seq<int>)
    requires n >= 1 && AllDigits(ds)
    ensures var t := Run(Empty(n), listening, DigitKeys(ds));
            && PwdInfo(t.store.cells) == (if ds == [] then None else Some(DigitsText(ds[..Min(|ds|, n)])))
            && (t.store.complete <==> |ds| >= n)
  {
    var m := Min(|ds|, n);
    TypeDigits(n, listening, ds);
    var s := Filled(n, ds[..m]);
    assert AllDigits(ds[..m]);
    PwdInfoUnderInv(s);
    ConcatFilled(n, ds[..m]);
    if ds != [] {
      assert |Concat(s.cells[..m])| == m;
    }
  }

  /** Feeding one more key continues the run from where it stood. */
  lemma RunSnoc(s: Store, listening: bool, keys: seq<KeyEvent>, k: KeyEvent)
    requires Shaped(s)
    ensures var t := Run(s, listening, keys);
            var o := OnKey(t.store, listening, k);
            Run(s, listening, keys + [k]) == Trace(o.store, t.events + o.events)
  {
    assert (keys + [k])[..|keys|] == keys;
  }

  lemma FirstThreeDigits()
    ensures Run(Empty(4), true, DigitKeys([1, 2, 3]))
            == Trace(Filled(4, [1, 2, 3]), [Change("1"), Change("2"), Change("3")])
  {
    TypeDigits(4, true, [1, 2, 3]);
    assert [1, 2, 3][..Min(3, 4)] == [1, 2, 3];
    assert DigitText(1) == "1" && DigitText(2) == "2" && DigitText(3) == "3";
    assert [1, 2, 3][..2] == [1, 2] && [1, 2][..1] == [1] && [1][..0] == [];
    assert TypedEvents(4, true, [1]) == [Change("1")];
    assert TypedEvents(4, true, [1, 2]) == [Change("1"), Change("2")];
  }

  lemma DeleteThird()
    ensures OnKey(Filled(4, [1, 2, 3]), true, KeyEvent(ACTION_DOWN, KEYCODE_DEL))
            == Outcome(Filled(4, [1, 2]), true, [Change("3")])
  {
    var s3 := Filled(4, [1, 2, 3]);
    DeleteUnderInv(s3, true);
    assert s3.cells[2 := None] == Filled(4, [1, 2]).cells;
    assert DigitText(3) == "3";
  }

  lemma TypeFourThenFive()
    ensures OnKey(Filled(4, [1, 2]), true, KeyEvent(ACTION_DOWN, 11))
            == Outcome(Filled(4, [1, 2, 4]), true, [Change("4")])
    ensures OnKey(Filled(4, [1, 2, 4]), true, KeyEvent(ACTION_DOWN, 12))
            == Outcome(Filled(4, [1, 2, 4, 5]), true, [Complete, Change("5")])
  {
    var s4, s5 := Filled(4, [1, 2]), Filled(4, [1, 2, 4]);
    DigitEntry(s4, true, 11);
    assert s4.cells[2 := Some(DigitText(4))] == s5.cells;
    DigitEntry(s5, true, 12);
    assert s5.cells[3 := Some(DigitText(5))] == Filled(4, [1, 2, 4, 5]).cells;
    assert DigitText(4) == "4" && DigitText(5) == "5";
  }

  /** The password that run leaves behind. */
  lemma Password1245()
    ensures PwdInfo(Filled(4, [1, 2, 4, 5]).cells) == Some("1245")
  {
    var s := Filled(4, [1, 2, 4, 5]);
    PwdInfoUnderInv(s);
    ConcatFilled(4, [1, 2, 4, 5]);
    assert s.cells[..4] == s.cells;
    assert [1, 2, 4, 5][..3] == [1, 2, 4] && [1, 2, 4][..2] == [1, 2];
    assert [1, 2][..1] == [1] && [1][..0] == [];
    assert DigitText(1) == "1" && DigitText(2) == "2" && DigitText(4) == "4" && DigitText(5) == "5";
    assert DigitsText([1, 2, 4, 5]) == "1245";
  }

  const DEL_KEY := KeyEvent(ACTION_DOWN, KEYCODE_DEL)

  lemma ScenarioDelete()
    ensures Run(Empty(4), true, DigitKeys([1, 2, 3]) + [DEL_KEY])
            == Trace(Filled(4, [1, 2]), [Change("1"), Change("2"), Change("3"), Change("3")])
  {
    FirstThreeDigits();
    DeleteThird();
    RunSnoc(Empty(4), true, DigitKeys([1, 2, 3]), DEL_KEY);
  }

  lemma ScenarioFour()
    ensures Run(Empty(4), true, DigitKeys([1, 2, 3]) + [DEL_KEY, KeyEvent(ACTION_DOWN, 11)])
            == Trace(Filled(4, [1, 2, 4]), [Change("1"), Change("2"), Change("3"), Change("3"), Change("4")])
  {
    ScenarioDelete();
    TypeFourThenFive();
    var p := DigitKeys([1, 2, 3]) + [DEL_KEY];
    RunSnoc(Empty(4), true, p, KeyEvent(ACTION_DOWN, 11));
    assert p + [KeyEvent(ACTION_DOWN, 11)] == DigitKeys([1, 2, 3]) + [DEL_KEY, KeyEvent(ACTION_DOWN, 11)];
  }

  lemma ScenarioFive()
    ensures Run(Empty(4), true, DigitKeys([1, 2, 3]) + [DEL_KEY, KeyEvent(ACTION_DOWN, 11), KeyEvent(ACTION_DOWN, 12)])
            == Trace(Filled(4, [1, 2, 4, 5]),
                     [Change("1"), Change("2"), Change("3"), Change("3"), Change("4"), Complete, Change("5")])
  {
    ScenarioFour();
    TypeFourThenFive();
    var p := DigitKeys([1, 2, 3]) + [DEL_KEY, KeyEvent(ACTION_DOWN, 11)];
    RunSnoc(Empty(4), true, p, KeyEvent(ACTION_DOWN, 12));
    assert p + [KeyEvent(ACTION_DOWN, 12)]
        == DigitKeys([1, 2, 3]) + [DEL_KEY, KeyEvent(ACTION_DOWN, 11), KeyEvent(ACTION_DOWN, 12)];
  }

  /**
   * A concrete run on four cells: 1, 2, 3, DEL, 4, 5, 6. The deletion
   * reports "3"; after 5 the password is "1245" and complete, with
   * `pwdComplete` delivered before the `pwdChange` for 5; the 6 is swallowed.
   */
  lemma FourCellScenario()
    ensures var t := Run(Empty(4), true, DigitKeys([1, 2, 3]) + [DEL_KEY, KeyEvent(ACTION_DOWN, 11),
                                         KeyEvent(ACTION_DOWN, 12), KeyEvent(ACTION_DOWN, 13)]);
            && t == Trace(Filled(4, [1, 2, 4, 5]),
                          [Change("1"), Change("2"), Change("3"), Change("3"), Change("4"), Complete, Change("5")])
            && PwdInfo(t.store.cells) == Some("1245")
            && t.store.complete
  {
    ScenarioFive();
    DigitWhenComplete(Filled(4, [1, 2, 4, 5]), true, 13);
    var p := DigitKeys([1, 2, 3]) + [DEL_KEY, KeyEvent(ACTION_DOWN, 11), KeyEvent(ACTION_DOWN, 12)];
    RunSnoc(Empty(4), true, p, KeyEvent(ACTION_DOWN, 13));
    assert p + [KeyEvent(ACTION_DOWN, 13)]
        == DigitKeys([1, 2, 3]) + [DEL_KEY, KeyEvent(ACTION_DOWN, 11), KeyEvent(ACTION_DOWN, 12), KeyEvent(ACTION_DOWN, 13)];
    Password1245();
  }
}
