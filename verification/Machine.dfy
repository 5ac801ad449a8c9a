/** The processes, the keyboard and the screen together: one active terminal, and every process tied to
    the screen and the input of its own terminal. */
module Machine {
  import opened Options
  import opened Sequences
  import P = ProcessState
  import I = ProcessInvariant
  import ProcessRuns
  import S = Screen
  import R = ScreenRuns
  import E = LineEditor
  import L = LineRuns
  import opened Transcript
  import opened ScreenText
  import Runs

  datatype State = State(proc: P.State, editor: E.State)

  /** A step of the process tables, a key pressed, a character printed by the kernel, a character written
      or a line read by the running process. */
  datatype Event =
    | Process(ev: P.Event)
    | Pressed(key: char, ctrl: bool, fn: bool)
    | Printed(c: char)
    | Written(c: char)
    | LineRead

  /** The tables and the buffers are in order, the display mirrors the active terminal, and both parts
      take the same terminal for the active one. */
  ghost predicate Ok(m: State) {
    && I.Inv(m.proc)
    && E.Ok(m.editor)
    && R.Mirror(m.editor.screen)
    && m.proc.active == m.editor.screen.active
  }

  /** The terminal of the running process. */
  function Terminal(p: P.State): (t: nat)
    requires P.WellSized(p) && 0 <= P.Running(p) < P.MAX_NUM_PROG
  {
    p.pcbs[P.Running(p)].terminal
  }

  lemma RunningHasTerminal(p: P.State)
    requires I.Inv(p)
    ensures P.WellSized(p) && 0 <= P.Running(p) < P.MAX_NUM_PROG && Terminal(p) < P.NUM_TERMINALS
    ensures p.active < P.NUM_TERMINALS
  {
    var ch :| I.InvWith(p, ch);
  }

  ghost predicate CanStep(m: State, ev: Event)
    requires Ok(m)
  {
    ev.Process? ==> P.CanStep(m.proc, ev.ev) && I.Guard(m.proc, ev.ev)
  }

  /** What the event is to the keyboard and the screen, if anything. */
  ghost function OnEditor(m: State, ev: Event): (evs: seq<E.Event>)
    requires Ok(m) && CanStep(m, ev)
    ensures |evs| <= 1 && (|evs| == 1 ==> E.CanStep(evs[0]))
  {
    RunningHasTerminal(m.proc);
    match ev
    case Process(HaltCall(_, _, _)) => [E.ClearBuffer(Terminal(m.proc))]
    case Process(TerminalKey(t, _, _)) => if P.Refused(m.proc, t) then [] else [E.Switch(t)]
    case Process(_) => []
    case Pressed(key, ctrl, fn) => [E.Key(key, ctrl, fn)]
    case Printed(c) => [E.Print(c)]
    case Written(c) => [E.Out(Terminal(m.proc), c)]
    case LineRead => [E.ReadLine(Terminal(m.proc))]
  }

  ghost function Step(m: State, ev: Event): State
    requires Ok(m) && CanStep(m, ev)
  {
    var evs := OnEditor(m, ev);
    State(
      if ev.Process? then P.Step(m.proc, ev.ev) else m.proc,
      if evs == [] then m.editor else E.Step(m.editor, evs[0]))
  }

  // ----- One active terminal -----

  /** Only a terminal key that is not refused changes which terminal the process tables call active. */
  lemma ActiveAfter(p: P.State, ev: P.Event)
    requires P.CanStep(p, ev)
    ensures P.Step(p, ev).active ==
      if ev.TerminalKey? && ev.terminal != p.active && !P.Refused(p, ev.terminal) then ev.terminal else p.active
  {
  }

  /** The same for the screen. */
  lemma ScreenActiveAfter(e: E.State, ev: E.Event)
    requires E.Ok(e) && E.CanStep(ev)
    ensures E.Step(e, ev).screen.active == if ev.Switch? then ev.new_ else e.screen.active
  {
  }

  lemma EditorKeeps(e: E.State, ev: E.Event)
    requires E.Ok(e) && R.Mirror(e.screen) && E.CanStep(ev)
    ensures E.Ok(E.Step(e, ev)) && R.Mirror(E.Step(e, ev).screen)
  {
    E.StepKeepsOk(e, ev);
    var echo := E.Echo(e, ev);
    if echo != [] { R.StepKeepsMirror(e.screen, echo[0]); }
  }

  /** A terminal that is active is never refused. */
  lemma ActiveIsOccupied(p: P.State)
    requires I.Inv(p)
    ensures P.WellSized(p) && !P.Refused(p, p.active)
  {
    var ch :| I.InvWith(p, ch);
  }

  /** Every step keeps both parts in order and in agreement. */
  lemma StepKeepsOk(m: State, ev: Event)
    requires Ok(m) && CanStep(m, ev)
    ensures Ok(Step(m, ev))
  {
    var evs := OnEditor(m, ev);
    if evs != [] {
      EditorKeeps(m.editor, evs[0]);
      ScreenActiveAfter(m.editor, evs[0]);
    }
    if ev.Process? {
      I.GuardIsExact(m.proc, ev.ev);
      ActiveAfter(m.proc, ev.ev);
      ActiveIsOccupied(m.proc);
    }
  }

  /** From a state in order the event makes its step. */
  ghost predicate Next(m: State, ev: Event, m': State) {
    Ok(m) ==> CanStep(m, ev) && m' == Step(m, ev)
  }

  ghost predicate Stepped(ms: seq<State>, evs: seq<Event>, i: nat)
    requires i < |evs| && |ms| == |evs| + 1
  {
    Runs.Stepped(Next, ms, evs, i)
  }

  ghost predicate IsRun(ms: seq<State>, evs: seq<Event>) {
    Runs.IsRun(Next, ms, evs)
  }

  /** In every run of process steps, keys and output the two parts stay in order and agree on the active
      terminal. */
  lemma {:induction false} RunKeepsOk(ms: seq<State>, evs: seq<Event>, n: nat)
    requires IsRun(ms, evs) && Ok(ms[0]) && n < |ms|
    ensures Ok(ms[n])
  {
    if n > 0 {
      RunKeepsOk(ms, evs, n - 1);
      assert Stepped(ms, evs, n - 1);
      StepKeepsOk(ms[n - 1], evs[n - 1]);
    }
  }

  /** The machine when the first shell has been started: the screen is cleared before. */
  ghost function Started(boot: P.State, e: E.State, shell: int, f: P.Frame): State
    requires P.WellSized(boot) && 0 <= P.SlotOf(f.esp) < P.MAX_NUM_PROG && S.Ok(e.screen)
  {
    State(P.Execute(boot, Some(shell), f), e.(screen := S.StepClear(e.screen)))
  }

  /** From boot on the machine is in order. */
  lemma BootIsOk(boot: P.State, e: E.State, shell: int, f: P.Frame)
    requires I.AtBoot(boot) && P.KERNEL_STACK_BOT - P.PCB_OFFSET <= f.esp < P.KERNEL_STACK_BOT
    requires E.Sized(e) && e.screen.active == 0 && forall t :: 0 <= t < E.NUM_TERMINALS ==> e.pos[t] == 0
    ensures P.SlotOf(f.esp) == 0 && Ok(Started(boot, e, shell, f))
  {
    I.BootEstablishes(boot, shell, f);
    I.ExecuteCases(boot, Some(shell), f);
    R.StepKeepsOk(e.screen, S.Clear);
    R.ClearPages(e.screen, 0);
  }

  /** What the i-th event of a run is to the keyboard and the screen. */
  ghost function OnEditorAt(ms: seq<State>, evs: seq<Event>, i: nat): seq<E.Event>
    requires i < |evs| && |ms| == |evs| + 1
  {
    if Ok(ms[i]) && CanStep(ms[i], evs[i]) then OnEditor(ms[i], evs[i]) else []
  }

  /** What a run of the machine does to the keyboard and the screen is a run of the line editor. So all that
      holds over the runs of the line editor and of the screen holds over the runs of the machine. */
  lemma EditorRunOf(ms: seq<State>, evs: seq<Event>) returns (es: seq<E.State>, xs: seq<E.Event>)
    requires IsRun(ms, evs) && Ok(ms[0])
    ensures L.IsRun(es, xs) && es[0] == ms[0].editor && es[|xs|] == ms[|evs|].editor
    ensures xs == Concat(seq(|evs|, i requires 0 <= i < |evs| => OnEditorAt(ms, evs, i)))
  {
    var editors := seq(|ms|, i requires 0 <= i < |ms| => ms[i].editor);
    var parts := seq(|evs|, i requires 0 <= i < |evs| => OnEditorAt(ms, evs, i));
    forall i | 0 <= i < |evs|
      ensures Runs.PartStepped(L.Next, editors, parts, i)
    {
      RunKeepsOk(ms, evs, i);
      assert Stepped(ms, evs, i);
    }
    es, xs := Runs.PartRuns(L.Next, editors, parts);
  }

  // ----- What the parts mean to each other -----

  /** After a terminal key that is not refused its terminal is active and has a process. */
  lemma SwitchOccupies(p: P.State, ev: P.Event)
    requires I.Inv(p) && ev.TerminalKey? && P.CanStep(p, ev) && I.Guard(p, ev) && !P.Refused(p, ev.terminal)
    ensures var p' := P.Step(p, ev); p'.active == ev.terminal && P.WellSized(p') && p'.termCurr[ev.terminal].Some?
  {
    I.StepKeeps(p, ev);
    ActiveAfter(p, ev);
    var ch :| I.InvWith(P.Step(p, ev), ch);
  }

  /** What a terminal key does to each part. */
  lemma KeyParts(m: State, ev: P.Event)
    requires Ok(m) && ev.TerminalKey? && P.CanStep(m.proc, ev)
    ensures CanStep(m, Process(ev))
    ensures var m' := Step(m, Process(ev));
      && m'.proc == P.Step(m.proc, ev)
      && m'.editor == if P.Refused(m.proc, ev.terminal) then m.editor else E.Step(m.editor, E.Switch(ev.terminal))
  {
  }

  lemma RefusedChangesNothing(p: P.State, ev: P.Event)
    requires I.Inv(p) && ev.TerminalKey? && P.CanStep(p, ev) && P.Refused(p, ev.terminal)
    ensures P.Step(p, ev) == p
  {
    ProcessRuns.SwitchOutcome(p, ev.terminal, ev.shell, ev.frame);
  }

  lemma SwitchDisplays(e: E.State, t: nat)
    requires E.Ok(e) && R.Mirror(e.screen) && t < P.NUM_TERMINALS
    ensures var s' := E.Step(e, E.Switch(t)).screen;
      S.Sized(s') && s'.active == t && R.Display(s') == R.Page(e.screen, t)
  {
    R.SwitchPages(e.screen, t, t);
  }

  /** A terminal key either changes nothing at all, exactly when an empty terminal would need a process
      and none can be started, or shows the page of that terminal, which then has a process. */
  lemma SwitchShowsTerminal(m: State, t: nat, shell: int, f: P.Frame)
    requires Ok(m) && t < P.NUM_TERMINALS && P.OnKernelStack(m.proc, f)
    ensures CanStep(m, Process(P.TerminalKey(t, shell, f)))
    ensures var m' := Step(m, Process(P.TerminalKey(t, shell, f)));
      if P.Refused(m.proc, t) then m' == m
      else
        && S.Sized(m'.editor.screen) && m'.proc.active == m'.editor.screen.active == t
        && |m'.proc.termCurr| == P.NUM_TERMINALS && m'.proc.termCurr[t].Some?
        && R.Display(m'.editor.screen) == R.Page(m.editor.screen, t)
  {
    var ev := P.TerminalKey(t, shell, f);
    I.StepKeeps(m.proc, ev);
    KeyParts(m, ev);
    if P.Refused(m.proc, t) {
      RefusedChangesNothing(m.proc, ev);
    } else {
      SwitchOccupies(m.proc, ev);
      SwitchDisplays(m.editor, t);
    }
  }

  /** A process step is the step of the process tables. Execute and a tick leave keyboard and screen alone. */
  lemma ProcessSteps(m: State, ev: P.Event)
    requires Ok(m) && CanStep(m, Process(ev))
    ensures P.CanStep(m.proc, ev) && Step(m, Process(ev)).proc == P.Step(m.proc, ev)
    ensures ev.ExecuteCall? || ev.TimerTick? ==> Step(m, Process(ev)).editor == m.editor
  {
  }

  /** Keys go to the keyboard handler, what the kernel prints to the screen; the running process writes to and
      reads from its own terminal. None of this touches the process tables. */
  lemma InputAndOutput(m: State, ev: Event)
    requires Ok(m) && !ev.Process?
    ensures Step(m, ev).proc == m.proc
    ensures Step(m, ev).editor ==
      match ev
      case Pressed(key, ctrl, fn) => E.Step(m.editor, E.Key(key, ctrl, fn))
      case Printed(c) => E.Step(m.editor, E.Print(c))
      case Written(c) => E.Step(m.editor, E.Out(Terminal(m.proc), c))
      case LineRead => m.editor.(flags := m.editor.flags[Terminal(m.proc) := false])
  {
  }

  /** What a process writes appears on the page of its own terminal, behind what that shows, unless the page
      scrolls uncleanly in the background. */
  lemma OutputAppears(m: State, c: char, tr: Text)
    requires Ok(m)
    ensures Terminal(m.proc) < S.NUM_TERMINALS
    ensures var s, t := m.editor.screen, Terminal(m.proc);
      ShowsOn(s, t, tr) && !Smears(s, S.Out(t, c), t) ==> ShowsOn(Step(m, Written(c)).editor.screen, t, Typed(tr, c))
  {
    RunningHasTerminal(m.proc);
    var s, t := m.editor.screen, Terminal(m.proc);
    if ShowsOn(s, t, tr) && !Smears(s, S.Out(t, c), t) { StepShowsText(s, S.Out(t, c), t, tr); }
  }

  /** It goes to no other page, and to the display exactly if that terminal is active. */
  lemma OutputStaysOnTerminal(m: State, c: char, u: nat)
    requires Ok(m) && u < S.NUM_TERMINALS
    ensures var m', t := Step(m, Written(c)), Terminal(m.proc);
      && (u != t ==> R.Page(m'.editor.screen, u) == R.Page(m.editor.screen, u))
      && (t != m.proc.active ==> R.Display(m'.editor.screen) == R.Display(m.editor.screen))
      && (t == m.proc.active ==> R.Display(m'.editor.screen) == R.Page(m'.editor.screen, t))
  {
    RunningHasTerminal(m.proc);
    StepKeepsOk(m, Written(c));
    var s, t := m.editor.screen, Terminal(m.proc);
    if t == s.active { R.ForegroundPut(s, c, u); } else { R.BackgroundPut(s, t, c, u); }
  }

  /** A process that ends leaves an empty line on its terminal, and every other line as it is. */
  lemma HaltEmptiesLine(m: State, ev: P.Event, u: nat, line: string)
    requires Ok(m) && ev.HaltCall? && CanStep(m, Process(ev)) && u < S.NUM_TERMINALS && L.Holds(m.editor, u, line)
    ensures Ok(Step(m, Process(ev)))
    ensures L.Holds(Step(m, Process(ev)).editor, u, if u == Terminal(m.proc) then [] else line)
  {
    StepKeepsOk(m, Process(ev));
    RunningHasTerminal(m.proc);
    L.StepHoldsLine(m.editor, E.ClearBuffer(Terminal(m.proc)), u, line);
  }
}
