/** Terminal input as the pickers see it. */
module Events {
  /** The keys the pickers tell apart; every other key is `OtherKey`. */
  datatype KeyCode = Esc | CtrlC | Backspace | Backspace2 | Up | Down | Enter | CtrlD | CtrlU | OtherKey

  /** A key press together with the rune it carries ('\0' when it carries
      none), or any event that is not a key press (resize, mouse, ...). */
  datatype Event = KeyPress(key: KeyCode, ch: char) | NonKey

  predicate IsKey(ev: Event, k: KeyCode) {
    ev.KeyPress? && ev.key == k
  }

  /** The selection index is usable: inside the list, or 0 for an empty list. */
  predicate InRange(selected: int, count: int) {
    0 <= selected && (count == 0 ==> selected == 0) && (count > 0 ==> selected < count)
  }

  function Max(a: int, b: int): int { if a > b then a else b }

  /** The clamp run after every key event, as a value: the selection back
      into the list, the window start to at most the selection, and the
      window pulled back so that it does not run past the end of the list.
      An in-range selection is kept, a settled state is left alone, and a
      window that contained the selection still does. */
  function ClampOf(selected: int, windowStart: int, windowSize: int, count: nat): (r: (int, int))
    ensures InRange(r.0, count)
    ensures 0 <= selected < count ==> r.0 == selected
    ensures selected >= count ==> r.0 == Max(count - 1, 0)
    ensures selected < 0 ==> r.0 == 0
    ensures r.1 <= r.0
    ensures 0 <= windowStart ==> 0 <= r.1
    ensures r.1 + windowSize <= count || r.1 == 0
    ensures 0 < windowSize && 0 <= windowStart && selected < windowStart + windowSize ==> r.0 < r.1 + windowSize
    ensures InRange(selected, count) && 0 <= windowStart <= selected
            && (windowStart + windowSize <= count || windowStart == 0)
            ==> r == (selected, windowStart)
  {
    var sel := if selected >= count then count - 1 else selected;
    var sel := if sel < 0 then 0 else sel;
    var start := if windowStart > sel then sel else windowStart;
    (sel, if start + windowSize > count then Max(0, count - windowSize) else start)
  }

  /** The clamp as the code runs it, step by step. */
  method Clamp(selected: int, windowStart: int, windowSize: int, count: nat) returns (sel: int, start: int)
    ensures (sel, start) == ClampOf(selected, windowStart, windowSize, count)
  {
    sel, start := selected, windowStart;
    if sel >= count {
      sel := count - 1;
    }
    if sel < 0 {
      sel := 0;
    }
    if start > sel {
      start := sel;
    }
    if start + windowSize > count {
      start := Max(0, count - windowSize);
    }
  }
}
