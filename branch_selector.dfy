/** The public branch selector: it drives the renderer with a handler whose
    pin and unpin callbacks change the caller's pinned list in place (with
    rollback on a persistence error) and records the selected branch. */
module BranchSelector {
  import opened Wrappers
  import opened Seqs
  import opened PinnedList
  import opened Events
  import opened Matching
  import R = Renderer

  /** `BranchSelectorArguments`; the pinned list is passed separately as the
      shared `PinList` object. */
  datatype Arguments = Arguments(
    currentBranch: string,
    branches: seq<string>,
    pinnedBranchPrefix: string,
    windowSize: int,
    searchLabel: string,
    onPinBranch: Persist,
    onUnpinBranch: Persist)

  /** `e` is what one of the persistence callbacks reports for branch `b`. */
  predicate PersistError(args: Arguments, b: string, e: string) {
    (args.onPinBranch.Some? && args.onPinBranch.value(b) == Some(e))
    || (args.onUnpinBranch.Some? && args.onUnpinBranch.value(b) == Some(e))
  }

  /** Esc or Ctrl+C, the keys that end the run without a selection. */
  predicate IsQuit(ev: Event) {
    IsKey(ev, Esc) || IsKey(ev, CtrlC)
  }

  /** Ctrl+D or Ctrl+U, the keys that call a persistence callback. */
  predicate IsPinKey(ev: Event) {
    IsKey(ev, CtrlD) || IsKey(ev, CtrlU)
  }

  /** Between two moments the shared list gained no duplicate and no label
      other than a branch. */
  ghost predicate PinsKept(before: seq<string>, after: seq<string>, branches: seq<string>) {
    (NoDup(before) ==> NoDup(after)) && forall x :: x in after ==> x in before || x in branches
  }

  lemma PinsKeptTrans(a: seq<string>, b: seq<string>, c: seq<string>, branches: seq<string>)
    requires PinsKept(a, b, branches) && PinsKept(b, c, branches)
    ensures PinsKept(a, c, branches)
  {
  }

  /** The handler `PickBranch` gives the renderer: `OnSelect` is set, and the
      pin and unpin closures work on the shared list. */
  function SelectorHandler(args: Arguments): R.Handler {
    R.Handler(true, R.SelectorHook(args.onPinBranch), R.SelectorHook(args.onUnpinBranch))
  }

  /** The `PickBranch` loop as a value, from renderer state `s` at event
      `i`: the result, the error, the number of events consumed, and the
      final state. The loop stops once the renderer is done, an event
      returns an error, or the events run out; `OnSelect` records the label. */
  function PickRun(args: Arguments, s: R.Screen, events: seq<Event>, i: nat): (string, Option<string>, nat, R.Screen)
    requires i <= |events| && InRange(s.selected, |s.visible|)
    decreases |events| - i
  {
    if s.quit || i == |events| then ("", None, i, s)
    else
      var p := R.RunNext(args.branches, args.windowSize, SelectorHandler(args), s, events[i]);
      if p.0.quit || p.1.Some? then (if p.2.Some? then p.2.value else "", p.1, i + 1, p.0)
      else PickRun(args, p.0, events, i + 1)
  }

  /** The states in which the events `PickRun` consumes arrive. */
  ghost function PickTrace(args: Arguments, s: R.Screen, events: seq<Event>, i: nat): seq<R.Screen>
    requires i <= |events| && InRange(s.selected, |s.visible|)
    decreases |events| - i
  {
    if s.quit || i == |events| then []
    else
      var p := R.RunNext(args.branches, args.windowSize, SelectorHandler(args), s, events[i]);
      if p.0.quit || p.1.Some? then [s]
      else [s] + PickTrace(args, p.0, events, i + 1)
  }

  /** One step of `PickRun`: an event that quits or fails ends the run,
      and selects only when it quits; any other goes on from its state. */
  lemma PickUnfold(args: Arguments, s: R.Screen, events: seq<Event>, i: nat)
    requires i < |events| && InRange(s.selected, |s.visible|) && !s.quit
    ensures var p := R.RunNext(args.branches, args.windowSize, SelectorHandler(args), s, events[i]);
            (p.2.Some? ==> p.0.quit)
            && PickRun(args, s, events, i)
               == if p.0.quit || p.1.Some? then (if p.2.Some? then p.2.value else "", p.1, i + 1, p.0)
                  else PickRun(args, p.0, events, i + 1)
  {
  }

  /** Event `ev` arriving in state `s` neither quits nor is Enter on a
      non-empty list. */
  predicate Calm(ev: Event, s: R.Screen) {
    !IsQuit(ev) && !(IsKey(ev, Enter) && |s.visible| > 0)
  }

  /** Every event but the last of trace `t`, from event `i` on, is calm. */
  ghost predicate CalmBefore(events: seq<Event>, i: nat, t: seq<R.Screen>) {
    forall k :: 0 <= k < |t| - 1 ==> i + k < |events| && Calm(events[i + k], t[k])
  }

  /** What the run `r` of the events from `i` on did, with `t[k]` the state
      event `i + k` arrived in and `L` the last consumed event: no event
      before `L` quits or is Enter on a non-empty list; the run stops before
      the events run out only on Esc or Ctrl+C, on Enter on a non-empty list,
      or on a pin or unpin key whose persistence failed; it has quit exactly
      when `L` was Esc, Ctrl+C or Enter on a non-empty list; Enter on a
      non-empty list as `L` selects exactly the label selected then, a
      branch, and a non-empty result comes only from it; an error leaves the
      result "", comes from a Ctrl+D or Ctrl+U, and is what a persistence
      callback reported for the branch selected then. */
  ghost predicate PickOutcome(args: Arguments, events: seq<Event>, i: nat,
                              r: (string, Option<string>, nat, R.Screen), t: seq<R.Screen>)
  {
    i <= r.2 <= |events| && |t| == r.2 - i
    && CalmBefore(events, i, t)
    && (r.2 < |events| ==>
          0 < |t| && (IsQuit(events[r.2 - 1]) || (IsKey(events[r.2 - 1], Enter) && |t[|t| - 1].visible| > 0)
                      || (r.1.Some? && IsPinKey(events[r.2 - 1]))))
    && (r.3.quit <==>
          0 < |t| && (IsQuit(events[r.2 - 1]) || (IsKey(events[r.2 - 1], Enter) && |t[|t| - 1].visible| > 0)))
    && (0 < |t| && IsKey(events[r.2 - 1], Enter) && |t[|t| - 1].visible| > 0 ==>
          0 <= t[|t| - 1].selected < |t[|t| - 1].visible|
          && r.0 == t[|t| - 1].visible[t[|t| - 1].selected] && r.0 in args.branches)
    && (r.0 != "" ==> 0 < |t| && IsKey(events[r.2 - 1], Enter) && |t[|t| - 1].visible| > 0)
    && (r.1.Some? ==>
          r.0 == "" && 0 < |t| && IsPinKey(events[r.2 - 1])
          && 0 <= t[|t| - 1].selected < |t[|t| - 1].visible|
          && t[|t| - 1].visible[t[|t| - 1].selected] in args.branches
          && PersistError(args, t[|t| - 1].visible[t[|t| - 1].selected], r.1.value))
  }

  /** The run from a state that has not quit, at event `i`, starts its trace
      in that state and does what `PickOutcome` says. */
  lemma {:induction false} PickRunSpec(args: Arguments, s: R.Screen, events: seq<Event>, i: nat)
    requires i <= |events| && R.Fits(args.branches, s) && !s.quit
    ensures 0 < |PickTrace(args, s, events, i)| ==> PickTrace(args, s, events, i)[0] == s
    ensures PickOutcome(args, events, i, PickRun(args, s, events, i), PickTrace(args, s, events, i))
    decreases |events| - i
  {
    if i < |events| {
      var p := R.RunNext(args.branches, args.windowSize, SelectorHandler(args), s, events[i]);
      if p.0.quit || p.1.Some? {
        PickLast(args, s, events, i);
      } else {
        PickRunSpec(args, p.0, events, i + 1);
        assert PickRun(args, s, events, i) == PickRun(args, p.0, events, i + 1);
        assert PickTrace(args, s, events, i) == [s] + PickTrace(args, p.0, events, i + 1);
        PickCons(args, s, events, i, PickRun(args, p.0, events, i + 1), PickTrace(args, p.0, events, i + 1));
      }
    }
  }

  /** An event that quits or fails ends the run with a one-state trace. */
  lemma PickLast(args: Arguments, s: R.Screen, events: seq<Event>, i: nat)
    requires i < |events| && R.Fits(args.branches, s) && !s.quit
    requires var p := R.RunNext(args.branches, args.windowSize, SelectorHandler(args), s, events[i]);
             p.0.quit || p.1.Some?
    ensures PickTrace(args, s, events, i) == [s]
    ensures PickOutcome(args, events, i, PickRun(args, s, events, i), PickTrace(args, s, events, i))
  {
    var h := SelectorHandler(args);
    var p := R.RunNext(args.branches, args.windowSize, h, s, events[i]);
    R.RunNextSpec(args.branches, args.windowSize, h, s, events[i]);
    assert PickRun(args, s, events, i) == (if p.2.Some? then p.2.value else "", p.1, i + 1, p.0);
    if p.1.Some? {
      var b := s.visible[s.selected];
      assert PersistError(args, b, p.1.value) by {
        if IsKey(events[i], CtrlD) {
          assert p.1 == R.HookError(h.onPin, b, s.pins, true);
        } else {
          assert p.1 == R.HookError(h.onUnpin, b, s.pins, false);
        }
      }
    }
    PickEnd(args, s, events, i, p);
  }

  /** The outcome of a run whose first event, arriving in `s`, ends it with
      `p` (the new state, the error and the label handed to `OnSelect`),
      from what that event is known to do. */
  lemma PickEnd(args: Arguments, s: R.Screen, events: seq<Event>, i: nat, p: (R.Screen, Option<string>, Option<string>))
    requires i < |events| && !s.quit && (p.0.quit || p.1.Some?)
    requires p.0.quit <==> IsQuit(events[i]) || (IsKey(events[i], Enter) && |s.visible| > 0)
    requires p.1.Some? ==>
               IsPinKey(events[i]) && p.2.None? && 0 <= s.selected < |s.visible|
               && s.visible[s.selected] in args.branches && PersistError(args, s.visible[s.selected], p.1.value)
    requires p.2.Some? <==> IsKey(events[i], Enter) && |s.visible| > 0
    requires p.2.Some? ==> 0 <= s.selected < |s.visible| && p.2.value == s.visible[s.selected] && p.2.value in args.branches
    ensures PickOutcome(args, events, i, (if p.2.Some? then p.2.value else "", p.1, i + 1, p.0), [s])
  {
  }

  /** An event that neither quits nor fails, arriving in state `s`, puts
      that state in front of the trace `t1` of the rest of the run `r`. */
  lemma PickCons(args: Arguments, s: R.Screen, events: seq<Event>, i: nat,
                 r: (string, Option<string>, nat, R.Screen), t1: seq<R.Screen>)
    requires i < |events|
    requires Calm(events[i], s)
    requires PickOutcome(args, events, i + 1, r, t1)
    ensures PickOutcome(args, events, i, r, [s] + t1)
  {
    var t := [s] + t1;
    forall k | 0 <= k < |t| - 1
      ensures i + k < |events| && Calm(events[i + k], t[k])
    {
      if k > 0 {
        assert (i + 1) + (k - 1) < |events| && Calm(events[(i + 1) + (k - 1)], t1[k - 1]);
        assert t[k] == t1[k - 1] && i + k == (i + 1) + (k - 1);
      }
    }
    assert CalmBefore(events, i, t);
    if 0 < |t1| {
      assert t[|t| - 1] == t1[|t1| - 1];
    }
  }

  /** Through the selector the pins gain no duplicate and no label other
      than a branch over a whole run. */
  lemma {:induction false} PickPins(args: Arguments, s: R.Screen, events: seq<Event>, i: nat)
    requires i <= |events| && R.Fits(args.branches, s)
    ensures PinsKept(s.pins, PickRun(args, s, events, i).3.pins, args.branches)
    decreases |events| - i
  {
    if !s.quit && i < |events| {
      var p := R.RunNext(args.branches, args.windowSize, SelectorHandler(args), s, events[i]);
      R.RunNextSpec(args.branches, args.windowSize, SelectorHandler(args), s, events[i]);
      if !(p.0.quit || p.1.Some?) {
        PickPins(args, p.0, events, i + 1);
        assert PickRun(args, s, events, i) == PickRun(args, p.0, events, i + 1);
        PinsKeptTrans(s.pins, p.0.pins, PickRun(args, p.0, events, i + 1).3.pins, args.branches);
      }
    }
  }

  /** What `PickBranch` does, in terms of the events and the states they
      arrive in (`t[k]` for event `k`): the first is the ordered list of the
      branches and the old pins with an empty input, and the run does what
      `PickOutcome` says. */
  lemma PickOutcomeSpec(args: Arguments, pins: seq<string>, events: seq<Event>)
    ensures var t := PickTrace(args, R.Opening(args.branches, pins), events, 0);
            0 < |t| ==> t[0].visible == Ordered(args.branches, pins) && t[0].input == ""
    ensures PickOutcome(args, events, 0, PickRun(args, R.Opening(args.branches, pins), events, 0),
                        PickTrace(args, R.Opening(args.branches, pins), events, 0))
  {
    PickRunSpec(args, R.Opening(args.branches, pins), events, 0);
  }

  /** One pass of the `PickBranch` loop: the renderer runs event `i`. An
      event that quits or fails ends the run from the old state with the
      new state, handing `OnSelect` the result; any other hands it nothing
      and leaves the rest of the run to go on from the new state. */
  method Pass(args: Arguments, r: R.Renderer, events: seq<Event>, i: nat) returns (err: Option<string>, chosen: Option<string>)
    requires i < |events| && r.Valid() && !r.quit
    requires r.branches == args.branches && r.windowSize == args.windowSize
    modifies r, r.pins
    ensures r.Valid()
    ensures r.quit || err.Some? ==>
              PickRun(args, old(r.Snap()), events, i) == (if chosen.Some? then chosen.value else "", err, i + 1, r.Snap())
    ensures !r.quit && err.None? ==>
              chosen.None? && PickRun(args, old(r.Snap()), events, i) == PickRun(args, r.Snap(), events, i + 1)
  {
    ghost var s := r.Snap();
    ghost var p := R.RunNext(args.branches, args.windowSize, SelectorHandler(args), s, events[i]);
    PickUnfold(args, s, events, i);
    err, chosen := r.Run(SelectorHandler(args), events[i]);
    assert r.Snap() == p.0 && err == p.1 && chosen == p.2;
  }

  /** `PickBranch`: run the renderer over the events until it is done, an
      event fails, or the events run out. The result, the error, the number
      of events consumed (`n`) and the pins left behind are those of
      `PickRun` from the state `NewRenderer` starts in, whose properties are
      `PickOutcomeSpec`. Pinning through the selector never duplicates a pin
      and only ever adds real branches. */
  method PickBranch(args: Arguments, pins: PinList, events: seq<Event>)
    returns (result: string, err: Option<string>, ghost n: nat)
    modifies pins
    ensures var r := PickRun(args, R.Opening(args.branches, old(pins.items)), events, 0);
            result == r.0 && err == r.1 && n == r.2 && pins.items == r.3.pins
    ensures NoDup(old(pins.items)) ==> NoDup(pins.items)
    ensures forall x :: x in pins.items ==> x in old(pins.items) || x in args.branches
  {
    var r := new R.Renderer(args.branches, pins, args.windowSize, args.searchLabel);
    ghost var run := PickRun(args, r.Snap(), events, 0);
    ghost var start := pins.items;
    assert r.Snap() == R.Opening(args.branches, start);
    result, err := "", None;
    var i := 0;
    while !r.IsDone() && err.None? && i < |events|
      invariant 0 <= i <= |events|
      invariant r.pins == pins && r.branches == args.branches && r.windowSize == args.windowSize
      invariant r.Valid()
      invariant err.None? && !r.quit ==> result == "" && run == PickRun(args, r.Snap(), events, i)
      invariant r.quit || err.Some? ==> run == (result, err, i, r.Snap())
      decreases |events| - i
    {
      var chosen;
      err, chosen := Pass(args, r, events, i);
      if chosen.Some? {
        result := chosen.value;
      }
      i := i + 1;
    }
    n := i;
    PickPins(args, R.Opening(args.branches, start), events, 0);
  }
}
