/** The first, single-file picker: remote branches from git, a search
    filter, and an event loop over local variables that checks out the chosen
    branch. Drawing, the screen and the polling goroutine are not modelled. */
module LegacyPicker {
  import opened Wrappers
  import opened Seqs
  import opened Matching
  import opened Events
  import opened GitBranches

  /** The window height, fixed in this picker. */
  const MainWindowSize := 10

  /** The loop's local variables. */
  datatype MainState = MainState(input: string, selected: int, windowStart: int, matches: seq<string>)

  /** What the loop does after one event: go on, stop, or check out a branch. */
  datatype Step = Continue | Quit | Checkout(branch: string)

  /** Between events: the matches are the filter of the input, the selection
      is usable, and the window contains it without running past the end. */
  ghost predicate MainValid(things: seq<string>, st: MainState) {
    st.matches == MainFilter(things, st.input)
    && InRange(st.selected, |st.matches|)
    && 0 <= st.windowStart <= st.selected < st.windowStart + MainWindowSize
    && (st.windowStart + MainWindowSize <= |st.matches| || st.windowStart == 0)
  }

  /** Esc or Ctrl+C. */
  predicate IsQuit(ev: Event) {
    IsKey(ev, Esc) || IsKey(ev, CtrlC)
  }

  /** The state before the first event. */
  function Start(things: seq<string>): (st: MainState)
    ensures MainValid(things, st) && st.input == "" && st.matches == things
  {
    MainState("", 0, 0, MainFilter(things, ""))
  }

  /** The switch on the key, before the common clamp: Backspace drops the last
      character, the arrows move by one and scroll by one when needed, and any
      other key that carries a rune appends it. Editing goes back to the top. */
  method MainKey(st: MainState, key: KeyCode, ch: char) returns (input: string, selected: int, windowStart: int)
    requires key != Esc && key != CtrlC
    requires key == Enter ==> st.matches == []
    ensures (input, selected, windowStart) == KeyEdit(st, key, ch)
    ensures input == (if (key == Backspace || key == Backspace2) && st.input != "" then st.input[..|st.input| - 1]
                      else if key != Backspace && key != Backspace2 && key != Up && key != Down && key != Enter && ch != '\0'
                      then st.input + [ch]
                      else st.input)
    ensures input != st.input ==> selected == 0 && windowStart == 0
    ensures key == Up ==> selected == (if st.selected > 0 then st.selected - 1 else st.selected)
                          && windowStart == if 0 < st.selected && st.selected - 1 < st.windowStart
                                            then st.windowStart - 1 else st.windowStart
    ensures key == Down ==> selected == (if st.selected < |st.matches| - 1 then st.selected + 1 else st.selected)
                            && windowStart == if st.selected < |st.matches| - 1 && st.selected + 1 >= st.windowStart + MainWindowSize
                                              then st.windowStart + 1 else st.windowStart
    ensures input == st.input && key != Up && key != Down ==> selected == st.selected && windowStart == st.windowStart
  {
    input, selected, windowStart := st.input, st.selected, st.windowStart;
    match key {
      case Backspace | Backspace2 =>
        if |input| > 0 {
          input := input[..|input| - 1];
          selected := 0;
          windowStart := 0;
        }
      case Up =>
        if selected > 0 {
          selected := selected - 1;
          if selected < windowStart {
            windowStart := windowStart - 1;
          }
        }
      case Down =>
        if selected < |st.matches| - 1 {
          selected := selected + 1;
          if selected >= windowStart + MainWindowSize {
            windowStart := windowStart + 1;
          }
        }
      case Enter =>
      case _ =>
        if ch != '\0' {
          input := input + [ch];
          selected := 0;
          windowStart := 0;
        }
    }
  }

  /** One pass of the event loop. A non-key event changes nothing. Esc and
      Ctrl+C stop at once. Enter on a non-empty list checks out the selected
      match. Every other key is applied and followed by the refilter and the
      clamp. */
  method MainStep(things: seq<string>, st: MainState, ev: Event) returns (next: MainState, step: Step)
    requires InRange(st.selected, |st.matches|)
    ensures (next, step) == MainNext(things, st, ev)
    ensures step.Quit? <==> IsQuit(ev)
    ensures step.Checkout? <==> IsKey(ev, Enter) && |st.matches| > 0
    ensures step.Checkout? ==> step.branch == st.matches[st.selected]
    ensures ev.NonKey? || !step.Continue? ==> next == st
    ensures step.Continue? && ev.KeyPress? ==> Clamped(things, next)
    ensures MainValid(things, st) ==> MainValid(things, next)
    ensures next.input != st.input ==>
              (IsKey(ev, Backspace) || IsKey(ev, Backspace2) || IsKey(ev, CtrlD) || IsKey(ev, CtrlU) || IsKey(ev, OtherKey))
              && next.selected == 0 && next.windowStart == 0
    ensures MainValid(things, st) && IsKey(ev, Up) ==> next == MovedUp(st)
    ensures MainValid(things, st) && IsKey(ev, Down) ==> next == MovedDown(st)
  {
    next, step := st, Continue;
    if ev.NonKey? {
      return;
    }
    if ev.key == Esc || ev.key == CtrlC {
      step := Quit;
    } else if ev.key == Enter && |st.matches| > 0 {
      step := Checkout(st.matches[st.selected]);
    } else {
      next := KeyStep(things, st, ev.key, ev.ch);
    }
  }

  /** The matches are the filter of the input and the clamp's guarantees
      hold: the selection is usable, the window starts at or before it and
      does not run past the end. */
  ghost predicate Clamped(things: seq<string>, st: MainState) {
    st.matches == MainFilter(things, st.input)
    && InRange(st.selected, |st.matches|)
    && st.windowStart <= st.selected
    && (st.windowStart + MainWindowSize <= |st.matches| || st.windowStart == 0)
  }

  /** Arrow up from a settled state: one line up, scrolling when the
      selection leaves the window. */
  function MovedUp(st: MainState): MainState {
    if st.selected > 0 then
      st.(selected := st.selected - 1,
          windowStart := if st.selected - 1 < st.windowStart then st.windowStart - 1 else st.windowStart)
    else st
  }

  /** Arrow down from a settled state: one line down, scrolling when the
      selection leaves the window. */
  function MovedDown(st: MainState): MainState {
    if st.selected < |st.matches| - 1 then
      st.(selected := st.selected + 1,
          windowStart := if st.selected + 1 >= st.windowStart + MainWindowSize then st.windowStart + 1 else st.windowStart)
    else st
  }

  /** The input, selection and window start after the key switch of one
      key, before the refilter and the clamp. */
  function KeyEdit(st: MainState, key: KeyCode, ch: char): (string, int, int) {
    match key
    case Backspace | Backspace2 =>
      if |st.input| > 0 then (st.input[..|st.input| - 1], 0, 0) else (st.input, st.selected, st.windowStart)
    case Up =>
      var m := MovedUp(st); (m.input, m.selected, m.windowStart)
    case Down =>
      var m := MovedDown(st); (m.input, m.selected, m.windowStart)
    case Enter =>
      (st.input, st.selected, st.windowStart)
    case _ =>
      if ch != '\0' then (st.input + [ch], 0, 0) else (st.input, st.selected, st.windowStart)
  }

  /** The state after the refilter and the clamp. */
  function Settled(things: seq<string>, input: string, selected: int, windowStart: int): (st: MainState)
    ensures InRange(st.selected, |st.matches|)
  {
    var matches := MainFilter(things, input);
    var c := ClampOf(selected, windowStart, MainWindowSize, |matches|);
    MainState(input, c.0, c.1, matches)
  }

  /** The state after a key that neither quits nor checks out. */
  function KeyNext(things: seq<string>, st: MainState, key: KeyCode, ch: char): MainState {
    var e := KeyEdit(st, key, ch);
    Settled(things, e.0, e.1, e.2)
  }

  /** One pass of the loop as a value: the next state and what the loop does. */
  function MainNext(things: seq<string>, st: MainState, ev: Event): (r: (MainState, Step))
    requires InRange(st.selected, |st.matches|)
    ensures r.1.Quit? <==> IsQuit(ev)
    ensures r.1.Checkout? <==> IsKey(ev, Enter) && |st.matches| > 0
    ensures r.1.Checkout? ==> r.1.branch == st.matches[st.selected]
    ensures !r.1.Continue? || ev.NonKey? ==> r.0 == st
    ensures r.1.Continue? && ev.KeyPress? ==> r.0.matches == MainFilter(things, r.0.input)
    ensures InRange(r.0.selected, |r.0.matches|)
  {
    if ev.NonKey? then (st, Continue)
    else if ev.key == Esc || ev.key == CtrlC then (st, Quit)
    else if ev.key == Enter && |st.matches| > 0 then (st, Checkout(st.matches[st.selected]))
    else (KeyNext(things, st, ev.key, ev.ch), Continue)
  }

  /** The loop from event `i` on, starting in `st`: it steps until a pass
      does not continue or the events run out, and gives the step it stopped
      on (`Continue` when the events ran out), the number of events consumed
      from the start, and the state it stopped in. */
  function MainRun(things: seq<string>, st: MainState, events: seq<Event>, i: nat): (Step, nat, MainState)
    requires i <= |events| && InRange(st.selected, |st.matches|)
    decreases |events| - i
  {
    if i == |events| then (Continue, i, st)
    else
      var p := MainNext(things, st, events[i]);
      if p.1.Continue? then MainRun(things, p.0, events, i + 1) else (p.1, i + 1, st)
  }

  /** The states in which the events `MainRun` consumes arrive. */
  function MainTrace(things: seq<string>, st: MainState, events: seq<Event>, i: nat): seq<MainState>
    requires i <= |events| && InRange(st.selected, |st.matches|)
    decreases |events| - i
  {
    if i == |events| then []
    else
      var p := MainNext(things, st, events[i]);
      if p.1.Continue? then [st] + MainTrace(things, p.0, events, i + 1) else [st]
  }

  /** Pass `ev` in state `a` continues, into state `b`. */
  predicate Continues(things: seq<string>, a: MainState, ev: Event, b: MainState)
    requires InRange(a.selected, |a.matches|)
  {
    MainNext(things, a, ev) == (b, Continue)
  }

  /** `t` holds the state each event of the run `r` from `i` on arrived in:
      every pass before the last consumed event continued, into the next
      state; a run that stopped stopped in the last state, and one that ran
      out of events continued from the last state into its final one. */
  ghost predicate TraceFacts(things: seq<string>, events: seq<Event>, i: nat, r: (Step, nat, MainState), t: seq<MainState>)
  {
    i <= r.1 <= |events| && |t| == r.1 - i
    && (forall k :: 0 <= k < |t| ==> InRange(t[k].selected, |t[k].matches|))
    && (forall k :: 0 <= k < |t| - 1 ==> Continues(things, t[k], events[i + k], t[k + 1]))
    && (!r.0.Continue? ==> 0 < |t| && t[|t| - 1] == r.2)
    && (r.0.Continue? && 0 < |t| ==> Continues(things, t[|t| - 1], events[r.1 - 1], r.2))
  }

  /** The trace accounts for the run, and starts in the run's first state;
      an empty trace means the run stayed in it. */
  lemma {:induction false} MainTraceSpec(things: seq<string>, st: MainState, events: seq<Event>, i: nat)
    requires i <= |events| && InRange(st.selected, |st.matches|)
    ensures 0 < |MainTrace(things, st, events, i)| ==> MainTrace(things, st, events, i)[0] == st
    ensures |MainTrace(things, st, events, i)| == 0 ==> MainRun(things, st, events, i).2 == st
    ensures TraceFacts(things, events, i, MainRun(things, st, events, i), MainTrace(things, st, events, i))
    decreases |events| - i
  {
    if i < |events| {
      var p := MainNext(things, st, events[i]);
      if p.1.Continue? {
        MainTraceSpec(things, p.0, events, i + 1);
        assert MainRun(things, st, events, i) == MainRun(things, p.0, events, i + 1);
        assert MainTrace(things, st, events, i) == [st] + MainTrace(things, p.0, events, i + 1);
        TraceCons(things, st, events, i, p.0, MainRun(things, p.0, events, i + 1), MainTrace(things, p.0, events, i + 1));
      } else {
        assert MainRun(things, st, events, i) == (p.1, i + 1, st);
      }
    }
  }

  /** A pass that continues from `s` into the first state of the trace `t1`
      of the rest of the run `r` puts `s` in front of that trace. */
  lemma TraceCons(things: seq<string>, s: MainState, events: seq<Event>, i: nat, next: MainState,
                  r: (Step, nat, MainState), t1: seq<MainState>)
    requires i < |events| && InRange(s.selected, |s.matches|)
    requires Continues(things, s, events[i], next)
    requires TraceFacts(things, events, i + 1, r, t1)
    requires 0 < |t1| ==> t1[0] == next
    requires |t1| == 0 ==> r.2 == next
    ensures TraceFacts(things, events, i, r, [s] + t1)
  {
    var t := [s] + t1;
    forall k | 0 <= k < |t|
      ensures InRange(t[k].selected, |t[k].matches|)
    {
      if k > 0 {
        assert t[k] == t1[k - 1];
      }
    }
    forall k | 0 <= k < |t| - 1
      ensures Continues(things, t[k], events[i + k], t[k + 1])
    {
      assert t[k + 1] == t1[k];
      if k > 0 {
        assert t[k] == t1[k - 1] && i + k == (i + 1) + (k - 1);
      }
    }
    if 0 < |t1| {
      assert t[|t| - 1] == t1[|t1| - 1];
    } else if r.0.Continue? {
      assert MainNext(things, s, events[i]).0 == next;
    }
  }

  /** What the program reports for the step the loop stopped on. */
  function Finish(step: Step, checkout: string -> Option<string>): Outcome {
    match step
    case Continue => Waiting
    case Quit => Cancelled
    case Checkout(b) => if checkout(b).Some? then Failed(checkout(b).value) else CheckedOut(b)
  }

  /** The run from event `i` on consumes between none and all of the
      remaining events; none of the events before the last consumed one
      quits; the step it stopped on is the step of its last state on its last
      event; running out of events means none of them quit; a quit is Esc or
      Ctrl+C, and a checkout is Enter on a non-empty list, of the selected
      match, which is one of the branches. That every pass before the last
      continued, and into which state, is `MainTraceSpec`. */
  lemma {:induction false} MainRunSpec(things: seq<string>, st: MainState, events: seq<Event>, i: nat)
    requires i <= |events| && st.matches == MainFilter(things, st.input) && InRange(st.selected, |st.matches|)
    ensures i <= MainRun(things, st, events, i).1 <= |events|
    ensures RunFacts(things, events, i, MainRun(things, st, events, i))
    decreases |events| - i
  {
    if i < |events| && MainNext(things, st, events[i]).1.Continue? {
      MainRunSpec(things, MainNext(things, st, events[i]).0, events, i + 1);
      RunSpecContinue(things, st, events, i);
    } else if i < |events| {
      RunSpecStop(things, st, events, i);
    }
  }

  /** A run whose first pass continues is the run from the next event on,
      and its account extends that run's. */
  lemma RunSpecContinue(things: seq<string>, st: MainState, events: seq<Event>, i: nat)
    requires i < |events| && InRange(st.selected, |st.matches|)
    requires MainNext(things, st, events[i]).1.Continue?
    requires var r := MainRun(things, MainNext(things, st, events[i]).0, events, i + 1);
             i + 1 <= r.1 <= |events| && RunFacts(things, events, i + 1, r)
    ensures i <= MainRun(things, st, events, i).1 <= |events|
    ensures RunFacts(things, events, i, MainRun(things, st, events, i))
  {
    var r := MainRun(things, st, events, i);
    assert r == MainRun(things, MainNext(things, st, events[i]).0, events, i + 1);
    RunFactsContinue(things, events, i, r);
  }

  /** A run whose first pass stops ends there. */
  lemma RunSpecStop(things: seq<string>, st: MainState, events: seq<Event>, i: nat)
    requires i < |events| && st.matches == MainFilter(things, st.input) && InRange(st.selected, |st.matches|)
    requires !MainNext(things, st, events[i]).1.Continue?
    ensures i <= MainRun(things, st, events, i).1 <= |events|
    ensures RunFacts(things, events, i, MainRun(things, st, events, i))
  {
    assert MainRun(things, st, events, i) == (MainNext(things, st, events[i]).1, i + 1, st);
    RunFactsStop(things, st, events, i);
  }

  /** A pass that continued on event `i` adds that event to the run's
      account. */
  lemma RunFactsContinue(things: seq<string>, events: seq<Event>, i: nat, r: (Step, nat, MainState))
    requires i < |events| && !IsQuit(events[i])
    requires i + 1 <= r.1 <= |events| && RunFacts(things, events, i + 1, r)
    ensures RunFacts(things, events, i, r)
  {
  }

  /** A pass that stopped on event `i` ends the run there, in the state it
      was in. */
  lemma RunFactsStop(things: seq<string>, st: MainState, events: seq<Event>, i: nat)
    requires i < |events| && st.matches == MainFilter(things, st.input) && InRange(st.selected, |st.matches|)
    requires !MainNext(things, st, events[i]).1.Continue?
    ensures RunFacts(things, events, i, (MainNext(things, st, events[i]).1, i + 1, st))
  {
    if IsKey(events[i], Enter) && st.input != "" {
      FilterMembers(things, Matches(st.input));
    }
  }

  /** What `MainRunSpec` states about a run `r` from event `i` on. */
  ghost predicate RunFacts(things: seq<string>, events: seq<Event>, i: nat, r: (Step, nat, MainState))
    requires i <= r.1 <= |events|
  {
    r.2.matches == MainFilter(things, r.2.input) && InRange(r.2.selected, |r.2.matches|)
    && (forall k :: i <= k < r.1 - 1 ==> !IsQuit(events[k]))
    && (r.0.Continue? ==> r.1 == |events| && forall k :: i <= k < |events| ==> !IsQuit(events[k]))
    && (!r.0.Continue? ==> i < r.1 && MainNext(things, r.2, events[r.1 - 1]).1 == r.0)
    && (r.0.Quit? ==> IsQuit(events[r.1 - 1]))
    && (r.0.Checkout? ==>
          IsKey(events[r.1 - 1], Enter) && r.2.matches != []
          && r.0.branch == r.2.matches[r.2.selected] && r.0.branch in things)
  }

  /** A key that neither quits nor checks out: the key's action, then the
      refilter and the clamp. */
  method KeyStep(things: seq<string>, st: MainState, key: KeyCode, ch: char) returns (next: MainState)
    requires key != Esc && key != CtrlC
    requires key == Enter ==> st.matches == []
    ensures next == KeyNext(things, st, key, ch)
    ensures Clamped(things, next)
    ensures MainValid(things, st) ==> MainValid(things, next)
    ensures next.input != st.input ==>
              (key == Backspace || key == Backspace2 || key == CtrlD || key == CtrlU || key == OtherKey)
              && next.selected == 0 && next.windowStart == 0
    ensures MainValid(things, st) && key == Up ==> next == MovedUp(st)
    ensures MainValid(things, st) && key == Down ==> next == MovedDown(st)
  {
    var input, selected, windowStart := MainKey(st, key, ch);
    next := Settle(things, input, selected, windowStart);
  }

  /** The refilter and clamp after a key. */
  method Settle(things: seq<string>, input: string, selected: int, windowStart: int) returns (st: MainState)
    ensures st == Settled(things, input, selected, windowStart)
    ensures st.input == input && st.matches == MainFilter(things, input)
    ensures InRange(st.selected, |st.matches|)
    ensures st.windowStart <= st.selected
    ensures st.windowStart + MainWindowSize <= |st.matches| || st.windowStart == 0
    ensures 0 <= windowStart ==> 0 <= st.windowStart
    ensures 0 <= selected < |st.matches| ==> st.selected == selected
    ensures 0 <= windowStart && selected < windowStart + MainWindowSize ==> st.selected < st.windowStart + MainWindowSize
    ensures InRange(selected, |st.matches|) && 0 <= windowStart <= selected
            && (windowStart + MainWindowSize <= |st.matches| || windowStart == 0)
            ==> st.selected == selected && st.windowStart == windowStart
  {
    var matches := MainFilter(things, input);
    var sel, start := Clamp(selected, windowStart, MainWindowSize, |matches|);
    st := MainState(input, sel, start, matches);
  }

  /** How a run of the picker ends: with an error, cancelled, with a branch
      checked out, or still waiting for input when the events run out. */
  datatype Outcome = Failed(error: string) | Cancelled | CheckedOut(branch: string) | Waiting

  /** The whole program: list the remote branches (a git error ends it
      before any event), then run the loop over them. Checking out is the
      given `checkout` step, whose error ends the program. The outcome is
      what `MainRun` from the start state reports, `n` counts the events
      consumed and `last` is the loop's state when it stopped;
      `MainOutcomeSpec` says what these are. */
  method MainSession(gitOut: Result<string, string>, events: seq<Event>, checkout: string -> Option<string>)
    returns (outcome: Outcome, ghost n: nat, ghost last: MainState)
    ensures n <= |events|
    ensures gitOut.Failure? ==> outcome == Failed(gitOut.error) && n == 0
    ensures gitOut.Success? ==>
              var things := RemoteBranches(gitOut).value;
              outcome == Finish(MainRun(things, Start(things), events, 0).0, checkout)
    ensures gitOut.Success? ==>
              var things := RemoteBranches(gitOut).value;
              var r := MainRun(things, Start(things), events, 0);
              n == r.1 && last == r.2 && MainValid(things, last)
  {
    var listing := RemoteBranches(gitOut);
    if listing.Failure? {
      return Failed(listing.error), 0, Start([]);
    }
    outcome, n, last := MainLoop(listing.value, events, checkout);
    MainRunSpec(listing.value, Start(listing.value), events, 0);
  }

  /** What a run of the loop over `things` reports: no event before the last
      consumed one quits; a cancellation is that last event being Esc or
      Ctrl+C; a checkout, or a checkout error, is that last event being Enter
      on a non-empty list, and concerns the selected match of the state the
      loop stopped in, one of the branches, whose checkout succeeded or gave
      that error; a run still waiting consumed every event and none of them
      quit. */
  lemma MainOutcomeSpec(things: seq<string>, events: seq<Event>, checkout: string -> Option<string>)
    ensures var r := MainRun(things, Start(things), events, 0);
            var outcome, n, last := Finish(r.0, checkout), r.1, r.2;
            n <= |events|
            && (forall k :: 0 <= k < n - 1 ==> !IsQuit(events[k]))
            && (outcome.Cancelled? ==> 0 < n && IsQuit(events[n - 1]))
            && (outcome.CheckedOut? || outcome.Failed? ==>
                  0 < n && IsKey(events[n - 1], Enter) && InRange(last.selected, |last.matches|)
                  && last.matches != [] && last.matches[last.selected] in things
                  && checkout(last.matches[last.selected])
                     == (if outcome.CheckedOut? then None else Some(outcome.error)))
            && (outcome.CheckedOut? ==> outcome.branch == last.matches[last.selected])
            && (outcome.Waiting? ==> n == |events| && forall k :: 0 <= k < |events| ==> !IsQuit(events[k]))
  {
    MainRunSpec(things, Start(things), events, 0);
  }

  /** The event loop over the branch list `things` computes `MainRun` from
      the start state: the outcome is what its stopping step reports, `n` the
      events it consumed and `last` the state it stopped in, which keeps the
      loop invariant. `MainRunSpec` says what such a run is. */
  method MainLoop(things: seq<string>, events: seq<Event>, checkout: string -> Option<string>)
    returns (outcome: Outcome, ghost n: nat, ghost last: MainState)
    ensures outcome == Finish(MainRun(things, Start(things), events, 0).0, checkout)
    ensures var r := MainRun(things, Start(things), events, 0);
            n == r.1 && last == r.2 && MainValid(things, last)
  {
    var st := Start(things);
    outcome := Waiting;
    ghost var ended := Continue;
    ghost var run := MainRun(things, st, events, 0);
    var i := 0;
    while i < |events| && outcome.Waiting?
      invariant 0 <= i <= |events|
      invariant MainValid(things, st)
      invariant outcome.Waiting? ==> run == MainRun(things, st, events, i)
      invariant !outcome.Waiting? ==> run == (ended, i, st) && outcome == Finish(ended, checkout)
      decreases |events| - i
    {
      var step;
      ghost var before := st;
      st, step := MainStep(things, st, events[i]);
      assert MainRun(things, before, events, i)
             == if step.Continue? then MainRun(things, st, events, i + 1) else (step, i + 1, before);
      match step {
        case Continue =>
        case Quit =>
          outcome := Cancelled;
        case Checkout(b) =>
          var e := checkout(b);
          outcome := if e.Some? then Failed(e.value) else CheckedOut(b);
      }
      ended := step;
      i := i + 1;
    }
    n, last := i, st;
  }
}
