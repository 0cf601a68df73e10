/** The interactive list-selection engine: the renderer's session state and
    the per-event transition that updates it in place. Drawing is not
    modelled; an event is an input value. */
module Renderer {
  import opened Wrappers
  import opened Seqs
  import opened Matching
  import opened PinnedList
  import opened Events
  import opened Text

  /** What a `SelectionHandler` pin or unpin callback does. Go passes closures;
      here they are named: no callback (nil), a callback that only answers
      with an error or nil and leaves the shared list alone, or the branch
      selector's closure, which changes the shared list itself and consults the
      given persistence callback. */
  datatype PinHook =
    | NoHook
    | PlainHook(answer: string -> Option<string>)
    | SelectorHook(persist: Persist)

  /** The `SelectionHandler`: whether `OnSelect` is set, and the pin and unpin
      callbacks. What `OnSelect` is called with is returned by `Run`. */
  datatype Handler = Handler(hasOnSelect: bool, onPin: PinHook, onUnpin: PinHook)

  /** The error a pin (`pinning`) or unpin callback reports for label `b`
      when the shared list holds `pins`: none without a callback; the plain
      callback's answer; and for the selector's closure, the persistence
      callback's answer when there is something to change and a callback to
      ask, otherwise none. */
  function HookError(h: PinHook, b: string, pins: seq<string>, pinning: bool): Option<string>
  {
    match h
    case NoHook => None
    case PlainHook(answer) => answer(b)
    case SelectorHook(persist) =>
      if (b in pins) != pinning && persist.Some? then persist.value(b) else None
  }

  /** The label to select after the selected one is unpinned: the next one in
      the list, else the previous one, else none. */
  function NextTarget(visible: seq<string>, selected: int): (t: string)
    requires InRange(selected, |visible|)
    ensures t != "" ==> t in visible
    ensures t != "" ==> exists k :: 0 <= k < |visible| && (k == selected + 1 || k == selected - 1) && visible[k] == t
    ensures |visible| == 1 ==> t == ""
  {
    if selected + 1 < |visible| then visible[selected + 1]
    else if selected > 0 then visible[selected - 1]
    else ""
  }

  /** The selection step of a refresh: the index of the target when it is
      present (both values of `follow` do the same), otherwise the old index,
      clamped into the list. */
  function SelectTarget(v: seq<string>, target: string, follow: bool, selected: int): (sel: int)
    ensures InRange(sel, |v|)
    ensures target != "" && target in v ==> sel == IndexOf(v, target) && v[sel] == target
    ensures (target == "" || target !in v) && 0 <= selected < |v| ==> sel == selected
    ensures (target == "" || target !in v) && selected >= |v| ==> sel == Max(|v| - 1, 0)
    ensures (target == "" || target !in v) && selected < 0 ==> sel == 0
  {
    var k := if (follow && target != "") || (!follow && target != "") then IndexOf(v, target) else -1;
    var sel := if k != -1 then k else selected;
    var sel := if sel >= |v| then |v| - 1 else sel;
    if sel < 0 then 0 else sel
  }

  /** The window step of a refresh: scroll up to the selection, or down just
      far enough to show it, never before the first item. */
  function ScrollTo(selected: int, windowStart: int, windowSize: int): (start: int)
    ensures 0 <= start
    ensures 0 < windowSize && 0 <= selected ==> start <= selected < start + windowSize
    ensures 0 <= windowStart <= selected < windowStart + windowSize ==> start == windowStart
    ensures 0 < windowSize && 0 <= selected < windowStart ==> start == selected
    ensures 0 < windowSize <= selected + 1 && windowStart + windowSize <= selected ==> start == selected - windowSize + 1
  {
    var start := if selected < windowStart then selected else windowStart;
    var start := if selected >= start + windowSize then selected - windowSize + 1 else start;
    if start < 0 then 0 else start
  }

  /** The renderer's state as a value: the search input, the list on screen,
      the selection, the window start, the quit flag, and the shared pin
      list. */
  datatype Screen = Screen(input: string, visible: seq<string>, selected: int, windowStart: int,
                           quit: bool, pins: seq<string>)

  /** The list on screen is the filter of the input over the pins, and the
      selection is usable. */
  ghost predicate Fits(branches: seq<string>, s: Screen) {
    s.visible == View(branches, s.pins, s.input) && InRange(s.selected, |s.visible|)
  }

  /** The state `NewRenderer` starts in. */
  function Opening(branches: seq<string>, pins: seq<string>): (s: Screen)
    ensures Fits(branches, s)
  {
    Screen("", Ordered(branches, pins), 0, 0, false, pins)
  }

  /** The common post-processing of an event: refilter, then clamp. */
  function SettleOf(branches: seq<string>, windowSize: int, s: Screen): (r: Screen)
    ensures Fits(branches, r) && r.quit == s.quit
  {
    var v := View(branches, s.pins, s.input);
    var c := ClampOf(s.selected, s.windowStart, windowSize, |v|);
    s.(visible := v, selected := c.0, windowStart := c.1)
  }

  /** `refreshBranchListWithSelection`: refilter, select the target when
      present, and scroll to the selection. */
  function RefreshOf(branches: seq<string>, windowSize: int, s: Screen, target: string, follow: bool): (r: Screen)
    ensures Fits(branches, r)
  {
    var v := View(branches, s.pins, s.input);
    var sel := SelectTarget(v, target, follow, s.selected);
    s.(visible := v, selected := sel, windowStart := ScrollTo(sel, s.windowStart, windowSize))
  }

  /** Backspace, before the post-processing. */
  function Erased(s: Screen): Screen {
    if |s.input| > 0 then s.(input := s.input[..|s.input| - 1], selected := 0, windowStart := 0) else s
  }

  /** A key carrying a rune, before the post-processing. */
  function Typed(s: Screen, ch: char): Screen {
    if ch != '\0' then s.(input := s.input + [ch], selected := 0, windowStart := 0) else s
  }

  /** Arrow up, before the post-processing. */
  function Raised(s: Screen): Screen {
    if s.selected > 0 then
      s.(selected := s.selected - 1,
         windowStart := if s.selected - 1 < s.windowStart then s.windowStart - 1 else s.windowStart)
    else s
  }

  /** Arrow down, before the post-processing. */
  function Lowered(windowSize: int, s: Screen): Screen {
    if s.selected < |s.visible| - 1 then
      s.(selected := s.selected + 1,
         windowStart := if s.selected + 1 >= s.windowStart + windowSize then s.windowStart + 1 else s.windowStart)
    else s
  }

  /** The key switch for the keys that neither select nor pin. */
  function KeyEdit(windowSize: int, s: Screen, key: KeyCode, ch: char): (r: Screen)
    ensures r.quit <==> s.quit || key == Esc || key == CtrlC
  {
    if key == Esc || key == CtrlC then s.(quit := true)
    else if key == Backspace || key == Backspace2 then Erased(s)
    else if key == Up then Raised(s)
    else if key == Down then Lowered(windowSize, s)
    else if key == OtherKey then Typed(s, ch)
    else s
  }

  /** Enter: on a non-empty list, quit and, when `OnSelect` is set, hand it
      the selected label without the post-processing. */
  function EnterOf(branches: seq<string>, windowSize: int, hasOnSelect: bool, s: Screen): (r: (Screen, Option<string>))
    requires InRange(s.selected, |s.visible|)
    ensures InRange(r.0.selected, |r.0.visible|) && (Fits(branches, s) ==> Fits(branches, r.0))
    ensures r.0.quit <==> s.quit || |s.visible| > 0
    ensures r.1.Some? <==> |s.visible| > 0 && hasOnSelect
    ensures r.1.Some? ==> r.1.value == s.visible[s.selected]
  {
    if |s.visible| > 0 && hasOnSelect then (s.(quit := true), Some(s.visible[s.selected]))
    else (SettleOf(branches, windowSize, if |s.visible| > 0 then s.(quit := true) else s), None)
  }

  /** Ctrl+D: the callback's error leaves everything as it was; otherwise a
      label that is still not pinned is pinned and followed, and anything
      else goes to the post-processing. */
  function PinOf(branches: seq<string>, windowSize: int, h: PinHook, s: Screen): (r: (Screen, Option<string>))
    requires InRange(s.selected, |s.visible|)
    ensures InRange(r.0.selected, |r.0.visible|) && (Fits(branches, s) ==> Fits(branches, r.0))
    ensures r.0.quit == s.quit
    ensures r.1.Some? ==> r.0 == s && |s.visible| > 0
    ensures |s.visible| > 0 ==> r.1 == HookError(h, s.visible[s.selected], s.pins, true)
  {
    if |s.visible| > 0 && !h.NoHook? then
      var b := s.visible[s.selected];
      var err := HookError(h, b, s.pins, true);
      if err.Some? then (s, err)
      else
        var p1 := if h.SelectorHook? then Pinned(s.pins, b) else s.pins;
        if b !in p1 then (RefreshOf(branches, windowSize, s.(pins := p1 + [b]), b, true), None)
        else (SettleOf(branches, windowSize, s.(pins := p1)), None)
    else (SettleOf(branches, windowSize, s), None)
  }

  /** Ctrl+U: the callback's error leaves everything as it was; otherwise a
      label that is still pinned loses its first occurrence and the next,
      else previous, label is selected, and anything else goes to the
      post-processing. */
  function UnpinOf(branches: seq<string>, windowSize: int, h: PinHook, s: Screen): (r: (Screen, Option<string>))
    requires InRange(s.selected, |s.visible|)
    ensures InRange(r.0.selected, |r.0.visible|) && (Fits(branches, s) ==> Fits(branches, r.0))
    ensures r.0.quit == s.quit
    ensures r.1.Some? ==> r.0 == s && |s.visible| > 0
    ensures |s.visible| > 0 ==> r.1 == HookError(h, s.visible[s.selected], s.pins, false)
  {
    if |s.visible| > 0 && !h.NoHook? then
      var b := s.visible[s.selected];
      var err := HookError(h, b, s.pins, false);
      if err.Some? then (s, err)
      else
        var p1 := if h.SelectorHook? then RemoveFirst(s.pins, b) else s.pins;
        if b in p1 then
          (RefreshOf(branches, windowSize, s.(pins := RemoveFirst(p1, b)), NextTarget(s.visible, s.selected), false), None)
        else (SettleOf(branches, windowSize, s.(pins := p1)), None)
    else (SettleOf(branches, windowSize, s), None)
  }

  /** One event of `Run` as a value: the new state, the error returned, and
      the label handed to `OnSelect`. An error comes only from a pin or
      unpin callback and leaves the state as it was; the run quits exactly on
      Esc, Ctrl+C or Enter on a non-empty list, and only that Enter selects,
      the selected label. */
  function RunNext(branches: seq<string>, windowSize: int, h: Handler, s: Screen, ev: Event)
    : (r: (Screen, Option<string>, Option<string>))
    requires InRange(s.selected, |s.visible|)
    ensures InRange(r.0.selected, |r.0.visible|)
    ensures Fits(branches, s) ==> Fits(branches, r.0)
    ensures ev.NonKey? ==> r == (s, None, None)
    ensures r.1.Some? ==> (IsKey(ev, CtrlD) || IsKey(ev, CtrlU)) && r.2.None? && r.0 == s && |s.visible| > 0
    ensures |s.visible| > 0 && IsKey(ev, CtrlD) ==> r.1 == HookError(h.onPin, s.visible[s.selected], s.pins, true)
    ensures |s.visible| > 0 && IsKey(ev, CtrlU) ==> r.1 == HookError(h.onUnpin, s.visible[s.selected], s.pins, false)
    ensures r.0.quit <==> s.quit || IsKey(ev, Esc) || IsKey(ev, CtrlC) || (IsKey(ev, Enter) && |s.visible| > 0)
    ensures r.2.Some? <==> IsKey(ev, Enter) && |s.visible| > 0 && h.hasOnSelect
    ensures r.2.Some? ==> r.2.value == s.visible[s.selected]
  {
    if ev.NonKey? then (s, None, None)
    else if ev.key == Enter then
      var e := EnterOf(branches, windowSize, h.hasOnSelect, s); (e.0, None, e.1)
    else if ev.key == CtrlD then
      var p := PinOf(branches, windowSize, h.onPin, s); (p.0, p.1, None)
    else if ev.key == CtrlU then
      var p := UnpinOf(branches, windowSize, h.onUnpin, s); (p.0, p.1, None)
    else (SettleOf(branches, windowSize, KeyEdit(windowSize, s, ev.key, ev.ch)), None, None)
  }

  /** The window starts at 0 or later and contains the selection. */
  predicate Windowed(windowSize: int, s: Screen) {
    0 <= s.windowStart <= s.selected < s.windowStart + windowSize
  }

  /** The post-processing keeps the input, the quit flag and the pins, and
      a valid window stays valid. */
  lemma SettleKeeps(branches: seq<string>, windowSize: int, s: Screen)
    ensures var r := SettleOf(branches, windowSize, s);
            r.input == s.input && r.quit == s.quit && r.pins == s.pins
            && (Windowed(windowSize, s) ==> Windowed(windowSize, r))
            && (r.windowStart + windowSize <= |r.visible| || r.windowStart == 0)
            && (s.selected == 0 && s.windowStart == 0 ==> r.selected == 0 && r.windowStart == 0)
  {
  }

  /** A refresh keeps the input, the quit flag and the pins, selects a
      target that is shown, and leaves a valid window. */
  lemma RefreshKeeps(branches: seq<string>, windowSize: int, s: Screen, target: string, follow: bool)
    ensures var r := RefreshOf(branches, windowSize, s, target, follow);
            r.input == s.input && r.quit == s.quit && r.pins == s.pins
            && 0 <= r.windowStart && (windowSize > 0 ==> Windowed(windowSize, r))
            && (target != "" && target in r.visible ==> r.visible[r.selected] == target)
  {
  }

  /** Ctrl+D as a value. Without a callback or on an empty list only the
      post-processing runs. A failing callback changes nothing (the function's
      own contract). Otherwise the pins become the callback's list pinned
      once more by the renderer: a label the renderer pins itself is then
      selected, any other case falls through to the post-processing, and with
      the selector's closure it always falls through. The input and the quit
      flag stay, a valid window stays valid, and the pins gain no duplicate
      and no label that is not a branch. */
  lemma PinOfSpec(branches: seq<string>, windowSize: int, h: PinHook, s: Screen)
    requires Fits(branches, s)
    ensures var r := PinOf(branches, windowSize, h, s).0;
            r.input == s.input && r.quit == s.quit
            && (NoDup(s.pins) ==> NoDup(r.pins))
            && (forall x :: x in r.pins ==> x in s.pins || x in branches)
            && (Windowed(windowSize, s) ==> Windowed(windowSize, r))
    ensures |s.visible| == 0 || h.NoHook? ==>
              PinOf(branches, windowSize, h, s) == (SettleOf(branches, windowSize, s), None)
    ensures |s.visible| > 0 && !h.NoHook? && PinOf(branches, windowSize, h, s).1.None? ==>
              var b := s.visible[s.selected];
              var r := PinOf(branches, windowSize, h, s).0;
              var p1 := if h.SelectorHook? then Pinned(s.pins, b) else s.pins;
              r.pins == Pinned(p1, b)
              && (b in p1 ==> r == SettleOf(branches, windowSize, s.(pins := p1)))
              && (b !in p1 ==> 0 <= r.selected < |r.visible| && (b != "" ==> r.visible[r.selected] == b)
                               && 0 <= r.windowStart && (windowSize > 0 ==> Windowed(windowSize, r)))
    ensures h.SelectorHook? && |s.visible| > 0 && PinOf(branches, windowSize, h, s).1.None? ==>
              PinOf(branches, windowSize, h, s).0
              == SettleOf(branches, windowSize, s.(pins := Pinned(s.pins, s.visible[s.selected])))
  {
    if |s.visible| == 0 || h.NoHook? {
      SettleKeeps(branches, windowSize, s);
    } else {
      var b := s.visible[s.selected];
      if HookError(h, b, s.pins, true).None? {
        var p1 := if h.SelectorHook? then Pinned(s.pins, b) else s.pins;
        ViewHas(branches, s.pins, s.input, b);
        PinnedSpec(s.pins, b);
        PinnedSpec(p1, b);
        if b !in p1 {
          var t := s.(pins := p1 + [b]);
          ViewHas(branches, t.pins, s.input, b);
          RefreshKeeps(branches, windowSize, t, b, true);
          assert PinOf(branches, windowSize, h, s).0 == RefreshOf(branches, windowSize, t, b, true);
        } else {
          SettleKeeps(branches, windowSize, s.(pins := p1));
        }
      }
    }
  }

  /** Ctrl+U as a value. Without a callback or on an empty list only the
      post-processing runs. A failing callback changes nothing (the
      function's own contract). Otherwise the pins lose the first occurrence
      of the label left after the callback: when the renderer removes one
      itself, the next, else previous, label is selected when still shown;
      otherwise the key falls through to the post-processing, as it always
      does with the selector's closure on pins without duplicates. The input
      and the quit flag stay, a valid window stays valid, and the pins gain
      no duplicate and no new label. */
  lemma UnpinOfSpec(branches: seq<string>, windowSize: int, h: PinHook, s: Screen)
    requires Fits(branches, s)
    ensures var r := UnpinOf(branches, windowSize, h, s).0;
            r.input == s.input && r.quit == s.quit
            && (NoDup(s.pins) ==> NoDup(r.pins))
            && (forall x :: x in r.pins ==> x in s.pins)
            && (Windowed(windowSize, s) ==> Windowed(windowSize, r))
    ensures |s.visible| == 0 || h.NoHook? ==>
              UnpinOf(branches, windowSize, h, s) == (SettleOf(branches, windowSize, s), None)
    ensures |s.visible| > 0 && !h.NoHook? && UnpinOf(branches, windowSize, h, s).1.None? ==>
              var b := s.visible[s.selected];
              var r := UnpinOf(branches, windowSize, h, s).0;
              var p1 := if h.SelectorHook? then RemoveFirst(s.pins, b) else s.pins;
              r.pins == RemoveFirst(p1, b)
              && (b !in p1 ==> r == SettleOf(branches, windowSize, s.(pins := p1)))
              && (b in p1 ==> 0 <= r.windowStart && (windowSize > 0 ==> Windowed(windowSize, r))
                              && var t := NextTarget(s.visible, s.selected);
                                 t != "" && t in r.visible ==> r.visible[r.selected] == t)
    ensures h.SelectorHook? && NoDup(s.pins) && |s.visible| > 0 && UnpinOf(branches, windowSize, h, s).1.None? ==>
              UnpinOf(branches, windowSize, h, s).0
              == SettleOf(branches, windowSize, s.(pins := RemoveFirst(s.pins, s.visible[s.selected])))
  {
    if |s.visible| == 0 || h.NoHook? {
      SettleKeeps(branches, windowSize, s);
    } else {
      var b := s.visible[s.selected];
      if HookError(h, b, s.pins, false).None? {
        var p1 := if h.SelectorHook? then RemoveFirst(s.pins, b) else s.pins;
        RemoveFirstSpec(s.pins, b);
        SubseqMembers(RemoveFirst(s.pins, b), s.pins);
        RemoveFirstSpec(p1, b);
        SubseqMembers(RemoveFirst(p1, b), p1);
        if b in p1 {
          RefreshKeeps(branches, windowSize, s.(pins := RemoveFirst(p1, b)), NextTarget(s.visible, s.selected), false);
        } else {
          SettleKeeps(branches, windowSize, s.(pins := p1));
        }
      }
    }
  }

  /** The keys that neither select nor pin keep a valid window valid, and
      only Backspace and a key carrying a rune change the input, going back
      to the top. */
  lemma KeyEditSpec(branches: seq<string>, windowSize: int, s: Screen, key: KeyCode, ch: char)
    requires Fits(branches, s)
    ensures var r := SettleOf(branches, windowSize, KeyEdit(windowSize, s, key, ch));
            (Windowed(windowSize, s) ==> Windowed(windowSize, r))
            && r.pins == s.pins
            && (r.input != s.input ==>
                  (key == Backspace || key == Backspace2 || key == OtherKey) && r.selected == 0 && r.windowStart == 0)
  {
    EditKeeps(windowSize, s, key, ch);
    SettleKeeps(branches, windowSize, KeyEdit(windowSize, s, key, ch));
  }

  /** The key switch keeps the pins and a valid window, and only Backspace
      and a rune change the input, resetting the selection and the window. */
  lemma EditKeeps(windowSize: int, s: Screen, key: KeyCode, ch: char)
    ensures var e := KeyEdit(windowSize, s, key, ch);
            (Windowed(windowSize, s) ==> Windowed(windowSize, e))
            && e.pins == s.pins
            && (e.input != s.input ==>
                  (key == Backspace || key == Backspace2 || key == OtherKey) && e.selected == 0 && e.windowStart == 0)
  {
  }

  /** What one event does beyond the function's own contract: a valid
      window stays valid; the pins gain no duplicate and no label that is not
      a branch; an error concerns a branch and a selection is one; and only
      Backspace and a key carrying a rune change the input, going back to the
      top. */
  lemma RunNextSpec(branches: seq<string>, windowSize: int, h: Handler, s: Screen, ev: Event)
    requires Fits(branches, s)
    ensures var r := RunNext(branches, windowSize, h, s, ev);
            (NoDup(s.pins) ==> NoDup(r.0.pins))
            && (forall x :: x in r.0.pins ==> x in s.pins || x in branches)
            && (Windowed(windowSize, s) ==> Windowed(windowSize, r.0))
            && (r.1.Some? ==> s.visible[s.selected] in branches)
            && (r.2.Some? ==> r.2.value in branches)
            && (r.0.input != s.input ==>
                  (IsKey(ev, Backspace) || IsKey(ev, Backspace2) || IsKey(ev, OtherKey))
                  && r.0.selected == 0 && r.0.windowStart == 0)
  {
    if |s.visible| > 0 {
      ViewHas(branches, s.pins, s.input, s.visible[s.selected]);
    }
    if ev.KeyPress? {
      if ev.key == CtrlD {
        PinOfSpec(branches, windowSize, h.onPin, s);
      } else if ev.key == CtrlU {
        UnpinOfSpec(branches, windowSize, h.onUnpin, s);
      } else if ev.key != Enter {
        KeyEditSpec(branches, windowSize, s, ev.key, ev.ch);
      }
    }
  }

  lemma ViewHas(branches: seq<string>, pins: seq<string>, input: string, x: string)
    ensures x in View(branches, pins, input) <==> x in branches && ContainsFold(x, input)
  {
    ViewSpec(branches, pins, input);
  }

  class Renderer {
    const branches: seq<string>
    const pins: PinList
    const windowSize: int
    const searchLabel: string

    var input: string
    var visible: seq<string>
    var selected: int
    var windowStart: int
    var quit: bool

    /** The list on screen is the filter of the current input over the current
        pins, and the selection is usable. */
    ghost predicate Valid()
      reads this`visible, this`input, this`selected, pins`items
    {
      visible == View(branches, pins.items, input) && InRange(selected, |visible|)
    }

    /** The window starts at 0 or later and contains the selection. */
    ghost predicate WindowValid()
      reads this`windowStart, this`selected
    {
      0 <= windowStart <= selected < windowStart + windowSize
    }

    /** The window does not run past the end of the list. */
    ghost predicate Anchored()
      reads this`windowStart, this`visible
    {
      windowStart + windowSize <= |visible| || windowStart == 0
    }

    ghost predicate Settled()
      reads this`visible, this`input, this`selected, this`windowStart, pins`items
    {
      Valid() && WindowValid() && Anchored()
    }

    /** The renderer's state as a value, with the shared pin list. */
    ghost function Snap(): Screen
      reads this, pins
    {
      Screen(input, visible, selected, windowStart, quit, pins.items)
    }

    /** `NewRenderer` without the screen: the ordered list, empty input, the
        first item selected. */
    constructor (branches: seq<string>, pins: PinList, windowSize: int, searchLabel: string)
      ensures this.branches == branches && this.pins == pins && this.windowSize == windowSize
      ensures this.searchLabel == if |searchLabel| > 0 then searchLabel else "search"
      ensures Snap() == Opening(branches, pins.items)
      ensures input == "" && visible == Ordered(branches, pins.items)
      ensures selected == 0 && windowStart == 0 && !quit
      ensures Valid() && Anchored()
      ensures windowSize > 0 ==> WindowValid()
    {
      this.branches := branches;
      this.pins := pins;
      this.windowSize := windowSize;
      var pinned := Filter(pins.items, In(branches));
      var normal := Filter(branches, NotIn(pinned));
      input := "";
      visible := pinned + normal;
      selected := 0;
      windowStart := 0;
      quit := false;
      this.searchLabel := if |searchLabel| > 0 then searchLabel else "search";
    }

    /** `refreshBranchListWithSelection`: recompute the list from the current
        pins and input, select the target when it is present (both values of
        `follow` do the same), clamp the selection, and move the window the
        least needed to show it. */
    method Refresh(target: string, follow: bool)
      modifies this
      ensures Snap() == RefreshOf(branches, windowSize, old(Snap()), target, follow)
      ensures visible == View(branches, pins.items, input)
      ensures input == old(input) && quit == old(quit)
      ensures InRange(selected, |visible|)
      ensures target != "" && target in visible ==> selected == IndexOf(visible, target) && visible[selected] == target
      ensures (target == "" || target !in visible) && 0 <= old(selected) < |visible| ==> selected == old(selected)
      ensures 0 <= windowStart
      ensures windowSize > 0 ==> WindowValid()
      ensures 0 <= old(windowStart) <= selected < old(windowStart) + windowSize ==> windowStart == old(windowStart)
    {
      visible := View(branches, pins.items, input);
      selected := SelectTarget(visible, target, follow, selected);
      windowStart := ScrollTo(selected, windowStart, windowSize);
    }

    /** The renderer's own pin after the callback: when `b` is still not
        pinned, append it and refresh following it. */
    method AddPin(b: string) returns (handled: bool)
      modifies this, pins
      ensures Snap() == if b !in old(pins.items)
                        then RefreshOf(branches, windowSize, old(Snap()).(pins := old(pins.items) + [b]), b, true)
                        else old(Snap())
      ensures handled == (b !in old(pins.items))
      ensures pins.items == Pinned(old(pins.items), b)
      ensures !handled ==> input == old(input) && visible == old(visible) && selected == old(selected)
                           && windowStart == old(windowStart) && quit == old(quit)
      ensures handled ==> Valid() && input == old(input) && quit == old(quit) && 0 <= windowStart
                          && (windowSize > 0 ==> WindowValid())
                          && (b != "" && b in visible ==> visible[selected] == b)
    {
      handled := false;
      if b !in pins.items {
        pins.items := pins.items + [b];
        Refresh(b, true);
        handled := true;
      }
    }

    /** The renderer's own unpin after the callback: when `b` is still
        pinned, remove its first occurrence and refresh selecting `next`. */
    method DropPin(b: string, next: string) returns (handled: bool)
      modifies this, pins
      ensures Snap() == if b in old(pins.items)
                        then RefreshOf(branches, windowSize, old(Snap()).(pins := RemoveFirst(old(pins.items), b)), next, false)
                        else old(Snap())
      ensures handled == (b in old(pins.items))
      ensures pins.items == RemoveFirst(old(pins.items), b)
      ensures !handled ==> input == old(input) && visible == old(visible) && selected == old(selected)
                           && windowStart == old(windowStart) && quit == old(quit)
      ensures handled ==> Valid() && input == old(input) && quit == old(quit) && 0 <= windowStart
                          && (windowSize > 0 ==> WindowValid())
                          && (next != "" && next in visible ==> visible[selected] == next)
    {
      handled := false;
      var idx := IndexOf(pins.items, b);
      if idx != -1 {
        pins.items := pins.items[..idx] + pins.items[idx + 1..];
        Refresh(next, false);
        handled := true;
      }
    }

    /** Ctrl+D: call the pin callback on the selected label; return its
        error at once. If the label is still not pinned afterwards, pin it
        here, refresh following it, and report the key as handled; otherwise
        leave the rest to the common post-processing. */
    method PinKey(h: PinHook) returns (err: Option<string>)
      requires Valid()
      modifies this, pins
      ensures (Snap(), err) == PinOf(branches, windowSize, h, old(Snap()))
      ensures Valid()
    {
      err := None;
      var handled := false;
      if |visible| > 0 && !h.NoHook? {
        var b := visible[selected];
        ghost var s0 := Snap();
        if h.PlainHook? {
          err := h.answer(b);
        } else {
          var persisted;
          err, persisted := pins.OnPin(b, h.persist);
        }
        if err.Some? {
          return;
        }
        assert Snap() == s0.(pins := if h.SelectorHook? then Pinned(s0.pins, b) else s0.pins);
        handled := AddPin(b);
      }
      if err.None? && !handled {
        Settle();
      }
    }

    /** Ctrl+U: call the unpin callback on the selected label; return its
        error at once. If the label is still pinned afterwards, remove its first
        occurrence here, refresh selecting the next label (else the previous
        one), and report the key as handled; otherwise leave the rest to the
        common post-processing. */
    method UnpinKey(h: PinHook) returns (err: Option<string>)
      requires Valid()
      modifies this, pins
      ensures (Snap(), err) == UnpinOf(branches, windowSize, h, old(Snap()))
      ensures Valid()
    {
      err := None;
      var handled := false;
      if |visible| > 0 && !h.NoHook? {
        var b := visible[selected];
        var next := NextTarget(visible, selected);
        ghost var p0 := pins.items;
        ghost var s0 := Snap();
        if h.PlainHook? {
          err := h.answer(b);
        } else {
          var persisted;
          err, persisted := pins.OnUnpin(b, h.persist);
        }
        if err.Some? {
          return;
        }
        assert Snap() == s0.(pins := if h.SelectorHook? then RemoveFirst(p0, b) else p0);
        handled := DropPin(b, next);
      }
      if err.None? && !handled {
        Settle();
      }
    }

    /** The common post-processing of an event: refilter the list with the
        current input and pins, and clamp the selection and the window. */
    method Settle()
      modifies this
      ensures Snap() == SettleOf(branches, windowSize, old(Snap()))
      ensures visible == View(branches, pins.items, input)
      ensures input == old(input) && quit == old(quit)
      ensures InRange(selected, |visible|) && Anchored()
      ensures windowStart <= selected
      ensures 0 <= old(windowStart) ==> 0 <= windowStart
      ensures 0 <= old(selected) < |visible| ==> selected == old(selected)
      ensures old(selected) == 0 ==> selected == 0
      ensures old(WindowValid()) ==> WindowValid()
      ensures InRange(old(selected), |visible|) && 0 <= old(windowStart) <= old(selected)
              && (old(windowStart) + windowSize <= |visible| || old(windowStart) == 0)
              ==> selected == old(selected) && windowStart == old(windowStart)
    {
      visible := View(branches, pins.items, input);
      selected, windowStart := Clamp(selected, windowStart, windowSize, |visible|);
    }

    /** Esc or Ctrl+C: ask the loop to stop. */
    method QuitKey()
      requires Valid()
      modifies this
      ensures Snap() == SettleOf(branches, windowSize, old(Snap()).(quit := true))
      ensures Valid() && Anchored() && quit
      ensures input == old(input) && visible == old(visible)
      ensures old(WindowValid()) ==> WindowValid()
      ensures old(Settled()) ==> selected == old(selected) && windowStart == old(windowStart)
    {
      quit := true;
      Settle();
    }

    /** Backspace: drop the last rune of the input and go back to the top. */
    method Erase()
      requires Valid()
      modifies this
      ensures Snap() == SettleOf(branches, windowSize, Erased(old(Snap())))
      ensures Valid() && Anchored() && quit == old(quit)
      ensures input == if old(input) == "" then old(input) else old(input)[..|old(input)| - 1]
      ensures old(input) != "" ==> selected == 0 && windowStart == 0
      ensures old(input) == "" && old(Settled()) ==> selected == old(selected) && windowStart == old(windowStart)
      ensures old(WindowValid()) ==> WindowValid()
    {
      if |input| > 0 {
        input := input[..|input| - 1];
        selected := 0;
        windowStart := 0;
      }
      Settle();
    }

    /** A key carrying a rune: append it to the input and go back to the top. */
    method Type(ch: char)
      requires Valid()
      modifies this
      ensures Snap() == SettleOf(branches, windowSize, Typed(old(Snap()), ch))
      ensures Valid() && Anchored() && quit == old(quit)
      ensures input == if ch == '\0' then old(input) else old(input) + [ch]
      ensures ch != '\0' ==> selected == 0 && windowStart == 0
      ensures ch == '\0' && old(Settled()) ==> selected == old(selected) && windowStart == old(windowStart)
      ensures old(WindowValid()) ==> WindowValid()
    {
      if ch != '\0' {
        input := input + [ch];
        selected := 0;
        windowStart := 0;
      }
      Settle();
    }

    /** Arrow up: select the previous item, scrolling up one line when it
        leaves the window. */
    method MoveUp()
      requires Valid()
      modifies this
      ensures Snap() == SettleOf(branches, windowSize, Raised(old(Snap())))
      ensures Valid() && Anchored() && input == old(input) && quit == old(quit)
      ensures old(Settled()) ==>
                selected == Max(old(selected) - 1, 0)
                && windowStart == if old(selected) > 0 && old(selected) - 1 < old(windowStart)
                                  then old(windowStart) - 1 else old(windowStart)
      ensures old(WindowValid()) ==> WindowValid()
    {
      if selected > 0 {
        selected := selected - 1;
        if selected < windowStart {
          windowStart := windowStart - 1;
        }
      }
      assert Snap() == Raised(old(Snap()));
      Settle();
    }

    /** Arrow down: select the next item, scrolling down one line when it
        leaves the window. */
    method MoveDown()
      requires Valid()
      modifies this
      ensures Snap() == SettleOf(branches, windowSize, Lowered(windowSize, old(Snap())))
      ensures Valid() && Anchored() && input == old(input) && quit == old(quit)
      ensures old(Settled()) ==>
                selected == (if old(selected) < |visible| - 1 then old(selected) + 1 else old(selected))
                && windowStart == if old(selected) < |visible| - 1 && old(selected) + 1 >= old(windowStart) + windowSize
                                  then old(windowStart) + 1 else old(windowStart)
      ensures old(WindowValid()) ==> WindowValid()
    {
      if selected < |visible| - 1 {
        selected := selected + 1;
        if selected >= windowStart + windowSize {
          windowStart := windowStart + 1;
        }
      }
      assert Snap() == Lowered(windowSize, old(Snap()));
      Settle();
    }

    /** Enter: on a non-empty list, stop the loop and, when `OnSelect` is set,
        hand it the selected label and return at once. */
    method EnterKey(hasOnSelect: bool) returns (chosen: Option<string>)
      requires Valid()
      modifies this
      ensures (Snap(), chosen) == EnterOf(branches, windowSize, hasOnSelect, old(Snap()))
      ensures Valid() && input == old(input)
      ensures quit == (old(quit) || old(|visible|) > 0)
      ensures chosen.Some? <==> old(|visible|) > 0 && hasOnSelect
      ensures chosen.Some? ==> chosen.value == old(visible[selected]) && chosen.value in branches
      ensures chosen.Some? ==> visible == old(visible) && selected == old(selected) && windowStart == old(windowStart)
      ensures chosen.None? ==> Anchored()
      ensures old(WindowValid()) ==> WindowValid()
      ensures old(Settled()) ==> selected == old(selected) && windowStart == old(windowStart)
    {
      chosen := None;
      if |visible| > 0 {
        quit := true;
        if hasOnSelect {
          chosen := Some(visible[selected]);
          ViewHas(branches, pins.items, input, visible[selected]);
          return;
        }
      }
      Settle();
    }

    /** The keys that neither select nor pin: quitting, editing the search
        input and moving the selection. */
    method BasicKey(key: KeyCode, ch: char)
      requires Valid()
      requires key != Enter && key != CtrlD && key != CtrlU
      modifies this
      ensures Snap() == SettleOf(branches, windowSize, KeyEdit(windowSize, old(Snap()), key, ch))
      ensures Valid()
    {
      if key == Esc || key == CtrlC {
        QuitKey();
      } else if key == Backspace || key == Backspace2 {
        Erase();
      } else if key == Up {
        MoveUp();
      } else if key == Down {
        MoveDown();
      } else {
        Type(ch);
      }
    }

    /** One event of the `Run` loop. */
    method Run(h: Handler, ev: Event) returns (err: Option<string>, chosen: Option<string>)
      requires Valid()
      modifies this, pins
      ensures (Snap(), err, chosen) == RunNext(branches, windowSize, h, old(Snap()), ev)
      ensures Valid()
    {
      err, chosen := None, None;
      if ev.NonKey? {
        return;
      }
      if ev.key == Enter {
        chosen := EnterKey(h.hasOnSelect);
      } else if ev.key == CtrlD {
        err := PinKey(h.onPin);
      } else if ev.key == CtrlU {
        err := UnpinKey(h.onUnpin);
      } else {
        BasicKey(ev.key, ev.ch);
      }
    }

    /** `IsDone`. */
    function IsDone(): bool
      reads this
    {
      quit
    }
  }
}
