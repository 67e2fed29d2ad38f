/** Giving memory back once no window is open: timers stamped with a generation, against
    windows that open and close. */
module Shedding {
  import opened Text

  datatype Config = Config(demo: bool, macOS: bool, delay: nat)

  datatype AfterLast = Quits | Sheds | Stays

  datatype Timer = Timer(generation: nat, due: nat)

  datatype Process = Running | Replaced | Ended

  /** `windows` are the ones on screen, `open` the app's count of them, and `since` when the
      last of them went. */
  datatype State = State(windows: set<nat>, open: nat, generation: nat, timers: seq<Timer>,
                         accounts: Option<nat>, now: nat, process: Process, since: nat)

  const START := State({}, 0, 0, [], None, 0, Running, 0)

  const BUSY_WAIT := 10

  /** `launcher` and `exec` say whether the program is found and takes the process's place. */
  datatype Step =
    | Open(window: nat)
    | Close(window: nat)
    | ReadAccounts(count: nat)
    | Tick
    | Fire(which: nat, busy: bool, sending: nat, launcher: bool, exec: bool)

  function AfterLastWindow(demo: bool, accounts: Option<nat>): AfterLast {
    if demo then Stays else if accounts == Some(0) then Quits else Sheds
  }

  function Less(n: nat): nat {
    if n == 0 then 0 else n - 1
  }

  predicate Allowed(s: State, step: Step) {
    s.process == Running &&
    match step
    case Open(window) => window !in s.windows
    case Close(window) => window in s.windows
    case ReadAccounts(_) => true
    case Tick => true
    case Fire(which, _, _, _, _) => which < |s.timers| && s.timers[which].due <= s.now
  }

  function WindowOpened(s: State): State {
    s.(open := s.open + 1, generation := s.generation + 1)
  }

  function WindowClosed(c: Config, s: State): State {
    var left := s.(open := Less(s.open));
    if left.open > 0 || c.macOS then left
    else
      match AfterLastWindow(c.demo, s.accounts)
      case Stays => left
      case Quits => left.(process := Ended)
      case Sheds =>
        left.(generation := s.generation + 1, timers := s.timers + [Timer(s.generation + 1, s.now + c.delay)])
  }

  function Fired(s: State, generation: nat, busy: bool, sending: nat, launcher: bool, exec: bool): State {
    if s.generation != generation || s.open > 0 then s
    else if busy || sending > 0 then s.(timers := s.timers + [Timer(generation, s.now + BUSY_WAIT)])
    else if !launcher || !exec then s
    else s.(process := Replaced)
  }

  function After(c: Config, s: State, step: Step): State {
    if !Allowed(s, step) then s
    else
      match step
      case Open(window) => WindowOpened(s.(windows := s.windows + {window}))
      case Close(window) =>
        var left := s.windows - {window};
        WindowClosed(c, s.(windows := left, since := if left == {} then s.now else s.since))
      case ReadAccounts(count) => s.(accounts := Some(count))
      case Tick => s.(now := s.now + 1)
      case Fire(which, busy, sending, launcher, exec) =>
        Fired(s.(timers := Drop(s.timers, which)), s.timers[which].generation, busy, sending, launcher, exec)
  }

  function At(c: Config, steps: seq<Step>): State {
    if steps == [] then START else After(c, At(c, steps[..|steps| - 1]), steps[|steps| - 1])
  }

  predicate Runs(c: Config, steps: seq<Step>) {
    steps == []
    || (Runs(c, steps[..|steps| - 1]) && Allowed(At(c, steps[..|steps| - 1]), steps[|steps| - 1]))
  }

  predicate Current(s: State, i: int) {
    0 <= i < |s.timers| && s.timers[i].generation == s.generation
  }

  /** No timer is from a later generation; one of this generation is alone, no window is
      open, and it is due no sooner than the full delay after the last one went. */
  ghost predicate Sound(c: Config, s: State) {
    && s.open == |s.windows| && s.since <= s.now
    && (forall i :: 0 <= i < |s.timers| ==> s.timers[i].generation <= s.generation)
    && (forall i :: Current(s, i) ==> s.windows == {} && s.since + c.delay <= s.timers[i].due)
    && (forall i, j :: Current(s, i) && Current(s, j) ==> i == j)
  }

  lemma DropIs(s: State, which: nat)
    requires which < |s.timers|
    ensures var left := s.(timers := Drop(s.timers, which));
            forall i :: Current(left, i) ==> Current(s, if i < which then i else i + 1)
                                             && left.timers[i] == s.timers[if i < which then i else i + 1]
  {
  }

  lemma CloseKeeps(c: Config, s: State, window: nat)
    requires Sound(c, s) && Allowed(s, Close(window))
    ensures Sound(c, After(c, s, Close(window)))
  {
    var after := After(c, s, Close(window));
    forall i | Current(after, i) && Current(s, i) ensures i < |s.timers| {
    }
    assert window in s.windows && |s.windows - {window}| == |s.windows| - 1;
    assert forall i :: !Current(s, i);
    if after.generation == s.generation + 1 {
      assert forall i :: Current(after, i) ==> i == |s.timers|;
    }
  }

  lemma FireKeeps(c: Config, s: State, step: Step)
    requires Sound(c, s) && Allowed(s, step) && step.Fire?
    ensures Sound(c, After(c, s, step))
  {
    DropIs(s, step.which);
    var left := s.(timers := Drop(s.timers, step.which));
    assert Sound(c, left);
    var after := After(c, s, step);
    if |after.timers| > |left.timers| {
      assert Current(s, step.which);
      forall i | 0 <= i < |left.timers| ensures !Current(left, i) {
      }
      assert forall i :: Current(after, i) ==> i == |left.timers|;
    }
  }

  lemma StepKeeps(c: Config, s: State, step: Step)
    requires Sound(c, s) && Allowed(s, step)
    ensures Sound(c, After(c, s, step))
  {
    match step
    case Open(window) => assert |s.windows + {window}| == |s.windows| + 1;
    case Close(window) => CloseKeeps(c, s, window);
    case ReadAccounts(count) => assert forall i :: Current(After(c, s, step), i) ==> Current(s, i);
    case Tick => assert forall i :: Current(After(c, s, step), i) ==> Current(s, i);
    case Fire(_, _, _, _, _) => FireKeeps(c, s, step);
  }

  /** Every state of a run after the last window went, up to now, has no window. */
  ghost predicate Gone(c: Config, steps: seq<Step>) {
    At(c, steps).windows == {} ==>
      forall k :: 0 <= k <= |steps| && At(c, steps[..k]).now > At(c, steps).since ==> At(c, steps[..k]).windows == {}
  }

  lemma {:induction false} RunKeeps(c: Config, steps: seq<Step>)
    requires Runs(c, steps)
    ensures Sound(c, At(c, steps)) && Gone(c, steps)
    ensures forall k :: 0 <= k <= |steps| ==> At(c, steps[..k]).now <= At(c, steps).now
  {
    if steps != [] {
      var before := steps[..|steps| - 1];
      RunKeeps(c, before);
      StepKeeps(c, At(c, before), steps[|steps| - 1]);
      assert steps[..|steps|] == steps;
      forall k | 0 <= k < |steps| ensures before[..k] == steps[..k] {
      }
    }
  }

  /** In every run at most one timer still counts, and while one does no window is open. */
  lemma OneTimer(c: Config, steps: seq<Step>, i: int, j: int)
    requires Runs(c, steps)
    ensures var s := At(c, steps);
            && s.open == |s.windows|
            && (Current(s, i) && Current(s, j) ==> i == j)
            && (Current(s, i) ==> s.windows == {})
  {
    RunKeeps(c, steps);
  }

  /** The process is replaced only when nothing is busy or waiting to be sent, and no window
      has been open at any moment of the full delay before. */
  lemma ShedsLate(c: Config, steps: seq<Step>, step: Step)
    requires Runs(c, steps) && Allowed(At(c, steps), step)
    requires After(c, At(c, steps), step).process == Replaced
    ensures step.Fire? && !step.busy && step.sending == 0
    ensures At(c, steps).windows == {} && c.delay <= At(c, steps).now
    ensures forall k :: 0 <= k <= |steps| && At(c, steps[..k]).now + c.delay > At(c, steps).now
                        ==> At(c, steps[..k]).windows == {}
  {
    RunKeeps(c, steps);
    var s := At(c, steps);
    assert Current(s, step.which);
  }

  ghost predicate Armed(s: State) {
    exists i :: Current(s, i)
  }

  /** What a timer does that is due: nothing more when windows have opened or closed since; wait
      ten seconds again, being as current as before, while something is busy or to be sent; and
      else the process is replaced, if the program is found and takes its place. */
  lemma FireExact(c: Config, s: State, which: nat, busy: bool, sending: nat, launcher: bool, exec: bool)
    requires Allowed(s, Fire(which, busy, sending, launcher, exec)) && Sound(c, s)
    ensures var after, timer := After(c, s, Fire(which, busy, sending, launcher, exec)), s.timers[which];
            var left, current := s.timers[..which] + s.timers[which + 1..], timer.generation == s.generation;
            && after.timers
               == left + (if current && (busy || sending > 0) then [Timer(timer.generation, s.now + 10)] else [])
            && (after.process == Replaced <==> current && !busy && sending == 0 && launcher && exec)
            && (after.windows, after.open, after.generation) == (s.windows, s.open, s.generation)
  {
    assert Current(s, which) ==> s.windows == {};
  }

  /** A run in which the process is replaced. */
  lemma ShedsOnce()
    ensures var c := Config(false, false, 0);
            var steps := [Open(1), Close(1), Fire(0, false, 0, true, true)];
            Runs(c, steps) && At(c, steps).process == Replaced
  {
    var c, open, close, fire := Config(false, false, 0), Open(1), Close(1), Fire(0, false, 0, true, true);
    var s1 := After(c, START, open);
    var s2 := After(c, s1, close);
    AtNext(c, [], open);
    AtNext(c, [open], close);
    AtNext(c, [open, close], fire);
    assert [] + [open] == [open] && [open] + [close] == [open, close];
    assert [open, close] + [fire] == [open, close, fire];
    assert s2.timers == [Timer(2, 0)] && s2.generation == 2;
  }

  lemma AtNext(c: Config, steps: seq<Step>, step: Step)
    ensures At(c, steps + [step]) == After(c, At(c, steps), step)
    ensures Runs(c, steps + [step]) <==> Runs(c, steps) && Allowed(At(c, steps), step)
  {
    assert (steps + [step])[..|steps|] == steps;
  }

  /** Closing the last window does nothing on macOS and in the demo, ends a process that is known
      to have no account, and else arms the one timer, due after the delay. */
  lemma LastCloseExact(c: Config, steps: seq<Step>, window: nat)
    requires Runs(c, steps) && Allowed(At(c, steps), Close(window)) && At(c, steps).windows == {window}
    ensures var s, after := At(c, steps), After(c, At(c, steps), Close(window));
            && (after.process == Ended <==> !c.macOS && !c.demo && s.accounts == Some(0))
            && after.timers == s.timers
                 + (if !c.macOS && !c.demo && s.accounts != Some(0)
                    then [Timer(after.generation, s.now + c.delay)] else [])
  {
    hide Sound, After;
    RunKeeps(c, steps);
    LastClose(c, At(c, steps), window);
  }

  lemma LastClose(c: Config, s: State, window: nat)
    requires Sound(c, s) && Allowed(s, Close(window)) && s.windows == {window}
    ensures var after := After(c, s, Close(window));
            && (after.process == Ended <==> !c.macOS && !c.demo && s.accounts == Some(0))
            && after.timers == s.timers
                 + (if !c.macOS && !c.demo && s.accounts != Some(0)
                    then [Timer(after.generation, s.now + c.delay)] else [])
  {
  }

  /** The last window to close leaves a timer, which stays until a window opens or it fires
      with nothing in its way. */
  lemma StaysArmed(c: Config, steps: seq<Step>, step: Step)
    requires Runs(c, steps) && Allowed(At(c, steps), step)
    ensures var s := At(c, steps);
            && (step.Close? && |s.windows| == 1 && !c.macOS && !c.demo && s.accounts != Some(0)
                ==> Armed(After(c, s, step)))
            && (Armed(s) ==>
                  Armed(After(c, s, step)) || step.Open?
                  || (step.Fire? && Current(s, step.which) && !step.busy && step.sending == 0
                      && (step.launcher && step.exec ==> After(c, s, step).process == Replaced)))
  {
    RunKeeps(c, steps);
    var s := At(c, steps);
    StaysArmedBy(c, s, step);
  }

  lemma StaysArmedBy(c: Config, s: State, step: Step)
    requires Sound(c, s) && Allowed(s, step)
    ensures step.Close? && |s.windows| == 1 && !c.macOS && !c.demo && s.accounts != Some(0)
            ==> Armed(After(c, s, step))
    ensures Armed(s) ==>
              Armed(After(c, s, step)) || step.Open?
              || (step.Fire? && Current(s, step.which) && !step.busy && step.sending == 0
                  && (step.launcher && step.exec ==> After(c, s, step).process == Replaced))
  {
    var after := After(c, s, step);
    match step
    case Open(_) =>
    case Close(window) =>
      assert |s.windows - {window}| == |s.windows| - 1;
      assert |after.timers| > |s.timers| ==> Current(after, |s.timers|);
    case ReadAccounts(_) => assert forall i :: Current(s, i) ==> Current(after, i);
    case Tick => assert forall i :: Current(s, i) ==> Current(after, i);
    case Fire(which, busy, sending, _, _) =>
      if Current(s, which) {
        assert busy || sending > 0 ==> Current(after, |s.timers| - 1);
      } else if Armed(s) {
        var i :| Current(s, i);
        var j := if i < which then i else i - 1;
        assert Drop(s.timers, which)[j] == s.timers[i];
        assert Current(after, j);
      }
  }

  // The cells the app changes.

  class App {
    const config: Config
    var openWindows: nat
    var shedGeneration: nat
    var timers: seq<Timer>
    var accounts: Option<nat>
    var process: Process
    ghost var windows: set<nat>
    ghost var since: nat

    ghost function Contents(now: nat): State
      reads this
    {
      State(windows, openWindows, shedGeneration, timers, accounts, now, process, since)
    }

    constructor (config: Config)
      ensures this.config == config && Contents(0) == START
    {
      this.config := config;
      openWindows, shedGeneration, timers, accounts, process := 0, 0, [], None, Running;
      windows, since := {}, 0;
    }

    method Opened(ghost now: nat, ghost window: nat)
      requires Allowed(Contents(now), Open(window))
      modifies this
      ensures Contents(now) == After(config, old(Contents(now)), Open(window))
    {
      windows := windows + {window};
      openWindows := openWindows + 1;
      shedGeneration := shedGeneration + 1;
    }

    method Closed(now: nat, ghost window: nat)
      requires Allowed(Contents(now), Close(window))
      modifies this
      ensures Contents(now) == After(config, old(Contents(now)), Close(window))
    {
      windows := windows - {window};
      since := if windows == {} then now else since;
      openWindows := Less(openWindows);
      if openWindows > 0 || config.macOS {
        return;
      }
      match AfterLastWindow(config.demo, accounts) {
        case Stays => return;
        case Quits =>
          process := Ended;
          return;
        case Sheds =>
      }
      shedGeneration := shedGeneration + 1;
      ShedAfter(now, shedGeneration, config.delay);
    }

    method ShedAfter(now: nat, generation: nat, seconds: nat)
      modifies this`timers
      ensures timers == old(timers) + [Timer(generation, now + seconds)]
    {
      timers := timers + [Timer(generation, now + seconds)];
    }

    method Fires(now: nat, which: nat, busy: bool, sending: nat, launcher: bool, exec: bool)
      requires Allowed(Contents(now), Fire(which, busy, sending, launcher, exec))
      modifies this
      ensures Contents(now) == After(config, old(Contents(now)), Fire(which, busy, sending, launcher, exec))
    {
      var generation := timers[which].generation;
      timers := Drop(timers, which);
      if shedGeneration != generation || openWindows > 0 {
        return;
      }
      if busy || sending > 0 {
        ShedAfter(now, generation, BUSY_WAIT);
        return;
      }
      if !launcher {
        return;
      }
      if exec {
        process := Replaced;
      }
    }
  }
}
