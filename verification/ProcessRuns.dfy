/** What holds over whole runs of execute, halt, timer ticks and terminal switches. */
module ProcessRuns {
  import opened Options
  import opened ProcessState
  import opened ProcessInvariant
  import opened Sequences

  /** The states before, between and after the events of a run in which every step meets its guard. */
  ghost predicate IsRun(ss: seq<State>, evs: seq<Event>) {
    && |ss| == |evs| + 1
    && forall i :: 0 <= i < |evs| ==>
         CanStep(ss[i], evs[i]) && Guard(ss[i], evs[i]) && ss[i + 1] == Step(ss[i], evs[i])
  }

  /** The invariant holds at every point of every run. */
  lemma {:induction false} RunKeepsInv(ss: seq<State>, evs: seq<Event>, i: nat)
    requires IsRun(ss, evs) && Inv(ss[0]) && i < |ss|
    ensures Inv(ss[i])
  {
    if i > 0 {
      RunKeepsInv(ss, evs, i - 1);
      StepKeeps(ss[i - 1], evs[i - 1]);
    }
  }

  /** Every run from boot keeps the invariant from the first shell on. */
  lemma BootRunKeepsInv(boot: State, shell: int, f: Frame, ss: seq<State>, evs: seq<Event>, i: nat)
    requires AtBoot(boot) && KERNEL_STACK_BOT - PCB_OFFSET <= f.esp < KERNEL_STACK_BOT
    requires 0 <= SlotOf(f.esp) < MAX_NUM_PROG && IsRun(ss, evs) && ss[0] == Execute(boot, Some(shell), f)
    requires i < |ss|
    ensures Inv(ss[i])
  {
    BootEstablishes(boot, shell, f);
    RunKeepsInv(ss, evs, i);
  }

  // ----- What the invariant says of the parent links -----

  /** The slots met by following parent links, at most n of them. */
  ghost function Walk(s: State, p: Option<nat>, n: nat): seq<nat>
    requires WellSized(s)
    decreases n
  {
    if n == 0 || p.None? || p.value >= MAX_NUM_PROG then []
    else [p.value] + Walk(s, s.pcbs[p.value].parent, n - 1)
  }

  lemma {:induction false} WalkIsChain(s: State, c: seq<nat>, t: nat, i: nat, n: nat)
    requires WellSized(s) && t < NUM_TERMINALS && ChainOk(s, c, t) && i <= |c| <= i + n
    ensures Walk(s, if i < |c| then Some(c[i]) else None, n) == c[i..]
    decreases n
  {
    if i < |c| {
      assert LinkOk(s, c, t, i);
      WalkIsChain(s, c, t, i + 1, n - 1);
    }
  }

  /** Following parent links from a terminal's queue entry meets distinct live processes of that
      terminal and stops at a process without a parent; the walks from all terminals together
      meet exactly the used slots. */
  lemma ParentChainsPartition(s: State)
    requires Inv(s)
    ensures forall t :: 0 <= t < NUM_TERMINALS ==>
      var c := Walk(s, s.termCurr[t], MAX_NUM_PROG);
      && Distinct(c)
      && (c != [] ==> c[|c| - 1] < MAX_NUM_PROG && s.pcbs[c[|c| - 1]].parent == None)
      && (c == [] <==> s.termCurr[t] == None)
    ensures forall t, p :: 0 <= t < NUM_TERMINALS && 0 <= p < MAX_NUM_PROG ==>
      (p in Walk(s, s.termCurr[t], MAX_NUM_PROG) <==> s.pcbUsed[p] && s.pcbs[p].terminal == t)
  {
    var ch :| InvWith(s, ch);
    forall t | 0 <= t < NUM_TERMINALS
      ensures Walk(s, s.termCurr[t], MAX_NUM_PROG) == ch[t] && Distinct(ch[t])
      ensures ch[t] != [] ==> var last := ch[t][|ch[t]| - 1]; last < MAX_NUM_PROG && s.pcbs[last].parent == None
      ensures forall p :: 0 <= p < MAX_NUM_PROG ==> (p in ch[t] <==> s.pcbUsed[p] && s.pcbs[p].terminal == t)
    {
      var c := ch[t];
      assert ChainOk(s, c, t);
      forall i | 0 <= i < |c| ensures c[i] < MAX_NUM_PROG { assert LinkOk(s, c, t, i); }
      DistinctFits(c, MAX_NUM_PROG);
      WalkIsChain(s, c, t, 0, MAX_NUM_PROG);
      if c != [] { assert LinkOk(s, c, t, |c| - 1); }
      forall p | 0 <= p < MAX_NUM_PROG && p in c ensures s.pcbUsed[p] && s.pcbs[p].terminal == t {
        OnOneChain(s, ch, t, p);
      }
    }
  }

  /** Where the kernel itself lives: the 4 MB below the first program frame. */
  const KERNEL_ADR: int := 0x400000

  /** What a page directory entry says, bit by bit: a present, writable, uncached 4 MB page that
      programs may use. */
  predicate MapsUserFrame(entry: int, frame: int) {
    && 0 <= entry < 0x1_0000_0000 && frame % PROG_PAGE_SIZE == 0
    && entry / PROG_PAGE_SIZE * PROG_PAGE_SIZE == frame
    && entry % 2 == 1 && entry / 2 % 2 == 1 && entry / 4 % 2 == 1 && entry / 0x10 % 2 == 1 && entry / 0x80 % 2 == 1
  }

  /** The entry of a slot maps the slot's own 4 MB frame, open to programs. No frame meets the kernel, and the
      record and the kernel stack of every slot lie inside the kernel, apart from those of all other slots. */
  lemma FramesMissKernel(slot: nat)
    requires slot < 6
    ensures MapsUserFrame(PdEntry(slot), 0x800000 + slot * 0x400000)
    ensures 0x800000 + slot * 0x400000 >= KERNEL_ADR + PROG_PAGE_SIZE
    ensures KERNEL_ADR <= PcbAddr(slot) < KStackAddr(slot) < KERNEL_ADR + PROG_PAGE_SIZE
    ensures forall other: nat :: other < slot ==> KStackAddr(slot) < PcbAddr(other)
  {
  }

  /** The running process heads its own terminal, sees its own frame and traps to its own stack;
      no other live process maps any byte of that frame, which programs may use and the kernel lies outside of. */
  lemma RunningIsIsolated(ss: seq<State>, evs: seq<Event>, i: nat)
    requires IsRun(ss, evs) && Inv(ss[0]) && i < |ss|
    ensures var s := ss[i]; var r := Running(s);
      && WellSized(s) && 0 <= r < MAX_NUM_PROG && s.pcbUsed[r] && s.pcbs[r].terminal < NUM_TERMINALS
      && s.termCurr[s.pcbs[r].terminal] == Some(r)
      && s.pdEntry == PdEntry(s.pcbs[r].ptIdx)
      && s.esp0 == s.pcbs[r].tssEsp == KStackAddr(r)
      && MapsUserFrame(s.pdEntry, 0x800000 + r * 0x400000)
      && (forall p :: 0 <= p < MAX_NUM_PROG && s.pcbUsed[p] && p != r ==>
            var other := PdEntry(s.pcbs[p].ptIdx);
            other + PROG_PAGE_SIZE <= s.pdEntry || s.pdEntry + PROG_PAGE_SIZE <= other)
  {
    RunKeepsInv(ss, evs, i);
    var s := ss[i];
    var ch :| InvWith(s, ch);
    assert Lockstep(s);
    FramesMissKernel(Running(s));
  }

  // ----- Failing and succeeding steps -----

  /** s' is s, but for a fresh process entered at `entry` that took the first slot and the same numbered
      frame of those not in `used`, and that heads terminal t on the screen. */
  ghost predicate LaunchedIn(s: State, s': State, used: seq<bool>, t: nat, entry: int)
    requires WellSized(s) && |used| == MAX_NUM_PROG && t < NUM_TERMINALS
  {
    && WellSized(s')
    && s'.cpu.Entered? && s'.cpu.entry == entry
    && var c := s'.cpu.slot;
       && c < MAX_NUM_PROG && !used[c] && (forall i :: 0 <= i < c ==> used[i])
       && s'.pcbUsed == used[c := true] && s'.progUsedPage == used[c := true]
       && s'.pdEntry == PdEntry(c) && s'.esp0 == KStackAddr(c)
       && s'.termCurr == s.termCurr[t := Some(c)]
       && s'.active == t && s'.pcbs[c].terminal == t
       && s'.pcbs[c].ptIdx == s'.pcbs[c].pcbIdx == c && s'.pcbs[c].tssEsp == KStackAddr(c)
       && s'.pcbs[c].returnVal == s.pcbs[c].returnVal
  }

  lemma LaunchIsLaunched(s: State, c: nat, entry: int, f: Frame)
    requires WellSized(s) && s.progUsedPage == s.pcbUsed && c == FirstFree(s.pcbUsed) < MAX_NUM_PROG
    requires 0 <= SlotOf(f.esp) < MAX_NUM_PROG
    ensures LaunchedIn(s, Launch(s, c, c, entry, f), s.pcbUsed, s.active, entry)
    ensures s.termCurr[s.active].None? ==> Launch(s, c, c, entry, f).pcbs[c].parent == None
  {
  }

  /** Execute fails exactly when the program is not executable or all slots are taken; a failure
      changes nothing at all, and a success always finds a slot to match its page. */
  lemma ExecuteOutcome(s: State, image: Option<int>, f: Frame)
    requires Inv(s) && OnKernelStack(s, f)
    ensures 0 <= SlotOf(f.esp) < MAX_NUM_PROG
    ensures var s' := Execute(s, image, f);
      if image.None? || (forall p :: 0 <= p < 6 ==> s.pcbUsed[p]) then s' == s
      else LaunchedIn(s, s', s.pcbUsed, s.active, image.value)
  {
    var ch :| InvWith(s, ch);
    TrapFindsRunning(s, ch, f);
    ExecuteCases(s, image, f);
    var c := FirstFree(s.pcbUsed);
    if image.Some? && c < MAX_NUM_PROG { LaunchIsLaunched(s, c, image.value, f); }
  }

  /** A terminal switch is refused exactly when an empty terminal would need a slot and none is
      free; otherwise the chosen terminal is on the screen with a process, a fresh shell if it had none. */
  lemma SwitchOutcome(s: State, t: nat, shell: int, f: Frame)
    requires Inv(s) && OnKernelStack(s, f) && t < NUM_TERMINALS
    ensures 0 <= SlotOf(f.esp) < MAX_NUM_PROG
    ensures var s' := SwitchTerminal(s, t, shell, f);
      if s.termCurr[t].None? && (forall p :: 0 <= p < MAX_NUM_PROG ==> s.pcbUsed[p]) then s' == s
      else if s.termCurr[t].Some? then s' == s.(active := t)
      else LaunchedIn(s, s', s.pcbUsed, t, shell) && s'.pcbs[Running(s')].parent == None
  {
    var ch :| InvWith(s, ch);
    TrapFindsRunning(s, ch, f);
    var s1 := s.(active := t);
    ExecuteCases(s1, Some(shell), f);
    var c := FirstFree(s.pcbUsed);
    if c < MAX_NUM_PROG && s.termCurr[t].None? { LaunchIsLaunched(s1, c, shell, f); }
  }

  /** A root halt on the terminal on the screen leaves a fresh shell there, whatever else is running. */
  lemma RootHaltOutcome(s: State, status: int, shell: int, f: Frame)
    requires Inv(s) && OnKernelStack(s, f) && Foreground(s) && s.pcbs[Running(s)].parent == None
    ensures OnSlot(s, f)
    ensures var s' := Halt(s, status, shell, f);
      && LaunchedIn(s, s', s.pcbUsed[Running(s) := false], s.active, shell)
      && s'.pcbs[Running(s')].parent == None
  {
    var ch :| InvWith(s, ch);
    TrapFindsRunning(s, ch, f);
    ReleaseRootReady(s, ch, f);
    var s1 := ReleaseRoot(s, Running(s));
    ExecuteCases(s1, Some(shell), f);
    LaunchIsLaunched(s1, FirstFree(s1.pcbUsed), shell, f);
    assert s1.termCurr[s.active := Some(FirstFree(s1.pcbUsed))] == s.termCurr[s.active := Some(FirstFree(s1.pcbUsed))];
  }

  // ----- What a step leaves alone -----

  /** The first free slot is taken, and the caller's registers are saved to continue after execute. */
  predicate Launches(s: State, s': State, n: nat, f: Frame)
    requires WellSized(s) && WellSized(s') && 0 <= Running(s) < MAX_NUM_PROG && n < MAX_NUM_PROG
  {
    && !s.pcbUsed[n] && (forall i :: 0 <= i < n ==> s.pcbUsed[i])
    && s'.pcbs[Running(s)].ctx == Context(f.esp, f.ebp, RetHere)
  }

  /** The process that runs next: the same one, which a tick resumes at its own registers, a fresh one, the
      parent of a halted one at its return address, or a queued one at its saved context. */
  ghost predicate RunsNext(s: State, ev: Event, s': State)
    requires WellSized(s) && WellSized(s') && 0 <= Running(s) < MAX_NUM_PROG
  {
    var r := Running(s);
    var n := Running(s');
    && 0 <= n < MAX_NUM_PROG
    && match ev
       case ExecuteCall(_, f) => if n == r then s' == s else Launches(s, s', n, f)
       case TerminalKey(t, _, f) => if n == r then s'.(active := s.active) == s else Launches(s, s', n, f)
       case TimerTick(_) =>
         && Some(n as nat) in s.termCurr
         && s'.cpu == Resumed(if n == r then Context(ev.frame.esp, ev.frame.ebp, SwitchPoint) else s.pcbs[n].ctx)
       case HaltCall(status, _, _) =>
         if s.pcbs[r].parent.None? then n == r || !s.pcbUsed[n]
         else
           && s.pcbs[r].parent == Some(n)
           && s'.cpu == Resumed(Context(s.pcbs[r].oldEsp, s.pcbs[r].oldEbp, RetHere))
           && s'.pcbs[n].returnVal == status % 0x100
  }

  /** The step is the halt of a child of this process. */
  predicate ReturnsInto(s: State, ev: Event, p: nat)
    requires WellSized(s) && 0 <= Running(s) < MAX_NUM_PROG
  {
    ev.HaltCall? && s.pcbs[Running(s)].parent == Some(p)
  }

  /** A step touches no live process but the running one, except that a halt hands the halting process's
      parent a return value, and of the running one it touches only the saved context unless it ends it. */
  ghost predicate Effects(s: State, ev: Event, s': State) {
    && WellSized(s) && WellSized(s') && 0 <= Running(s) < MAX_NUM_PROG
    && (forall p :: 0 <= p < MAX_NUM_PROG && s.pcbUsed[p] && p != Running(s) ==>
          s'.pcbUsed[p] && s'.pcbs[p] == s.pcbs[p].(returnVal := s'.pcbs[p].returnVal))
    && (forall p :: 0 <= p < MAX_NUM_PROG && s.pcbUsed[p] && p != Running(s) && !ReturnsInto(s, ev, p) ==>
          s'.pcbs[p] == s.pcbs[p])
    && (!ev.HaltCall? ==>
          var r := Running(s); s'.pcbUsed[r] && s'.pcbs[r] == s.pcbs[r].(ctx := s'.pcbs[r].ctx))
    && (forall t :: 0 <= t < NUM_TERMINALS && s.termCurr[t].Some? && s.termCurr[t] != Some(Running(s)) ==>
          s'.termCurr[t] == s.termCurr[t])
    && RunsNext(s, ev, s')
  }

  lemma ExecuteEffects(s: State, ch: seq<seq<nat>>, ev: Event)
    requires InvWith(s, ch) && CanStep(s, ev) && ev.ExecuteCall? && Guard(s, ev)
    ensures Effects(s, ev, Step(s, ev))
  {
    TrapFindsRunning(s, ch, ev.frame);
    ExecuteCases(s, ev.image, ev.frame);
  }

  /** A launch touches the new slot, the caller's saved context and the active terminal's entry only. */
  lemma LaunchTouches(s: State, slot: nat, entry: int, f: Frame)
    requires WellSized(s) && slot < MAX_NUM_PROG && 0 <= SlotOf(f.esp) < MAX_NUM_PROG
    ensures var s' := Launch(s, slot, slot, entry, f);
      && WellSized(s') && Running(s') == slot
      && s'.pcbUsed == s.pcbUsed[slot := true] && s'.termCurr == s.termCurr[s.active := Some(slot)]
      && forall p :: 0 <= p < MAX_NUM_PROG && p != slot ==>
           s'.pcbs[p] == s.pcbs[p].(ctx := s'.pcbs[p].ctx) && (p != SlotOf(f.esp) ==> s'.pcbs[p] == s.pcbs[p])
  {
  }

  /** A terminal key that starts no shell touches no process. */
  lemma ShowEffects(s: State, ch: seq<seq<nat>>, ev: Event, t: nat)
    requires InvWith(s, ch) && CanStep(s, ev) && ev.TerminalKey? && t < NUM_TERMINALS
    ensures Effects(s, ev, s.(active := t))
  {
  }

  /** One that starts a shell touches the new slot and the running process's saved context. */
  lemma ShellEffects(s: State, ch: seq<seq<nat>>, ev: Event, slot: nat)
    requires InvWith(s, ch) && CanStep(s, ev) && ev.TerminalKey? && s.termCurr[ev.terminal].None?
    requires slot == FirstFree(s.pcbUsed) < MAX_NUM_PROG && SlotOf(ev.frame.esp) == Running(s)
    ensures Effects(s, ev, Launch(s.(active := ev.terminal), slot, slot, ev.shell, ev.frame))
  {
    LaunchTouches(s.(active := ev.terminal), slot, ev.shell, ev.frame);
  }

  lemma SwitchEffects(s: State, ch: seq<seq<nat>>, ev: Event)
    requires InvWith(s, ch) && CanStep(s, ev) && ev.TerminalKey?
    ensures Effects(s, ev, Step(s, ev))
  {
    TrapFindsRunning(s, ch, ev.frame);
    var slot := FirstFree(s.pcbUsed);
    ExecuteCases(s.(active := ev.terminal), Some(ev.shell), ev.frame);
    if slot < MAX_NUM_PROG && s.termCurr[ev.terminal].None? && ev.terminal != s.active {
      ShellEffects(s, ch, ev, slot);
    } else {
      ShowEffects(s, ch, ev, Step(s, ev).active);
      assert Step(s, ev) == s.(active := Step(s, ev).active);
    }
  }

  /** A tick touches the saved context of the running process only, and resumes what the next one saved. */
  lemma TickTouches(s: State, f: Frame)
    requires OnSlot(s, f)
    ensures var s', self := Tick(s, f), SlotOf(f.esp);
      && WellSized(s') && s'.pcbUsed == s.pcbUsed && s'.termCurr == s.termCurr
      && (forall p :: 0 <= p < MAX_NUM_PROG ==> s'.pcbs[p] == s.pcbs[p].(ctx := s'.pcbs[p].ctx))
      && (forall p :: 0 <= p < MAX_NUM_PROG && p != self ==> s'.pcbs[p] == s.pcbs[p])
      && (s'.cpu == s.cpu || exists p :: 0 <= p < MAX_NUM_PROG && s'.cpu == Resumed(s'.pcbs[p].ctx))
  {
  }

  lemma TickEffects(s: State, ch: seq<seq<nat>>, ev: Event)
    requires InvWith(s, ch) && CanStep(s, ev) && ev.TimerTick?
    ensures Effects(s, ev, Step(s, ev))
  {
    TrapFindsRunning(s, ch, ev.frame);
    TickKeeps(s, ch, ev.frame);
    TickTouches(s, ev.frame);
  }

  lemma ChildHaltEffects(s: State, ch: seq<seq<nat>>, ev: Event)
    requires InvWith(s, ch) && CanStep(s, ev) && ev.HaltCall? && s.pcbs[Running(s)].parent.Some?
    ensures Effects(s, ev, Step(s, ev))
  {
    TrapFindsRunning(s, ch, ev.frame);
    ParentIsOwn(s, ch, Running(s));
  }

  lemma RootHaltEffects(s: State, ch: seq<seq<nat>>, ev: Event)
    requires InvWith(s, ch) && CanStep(s, ev) && ev.HaltCall? && Guard(s, ev)
    requires s.pcbs[Running(s)].parent.None?
    ensures Effects(s, ev, Step(s, ev))
  {
    TrapFindsRunning(s, ch, ev.frame);
    ReleaseRootReady(s, ch, ev.frame);
    var s1 := ReleaseRoot(s, Running(s));
    ExecuteCases(s1, Some(ev.shell), ev.frame);
    LaunchTouches(s1, FirstFree(s1.pcbUsed), ev.shell, ev.frame);
    RootHaltIsLocal(s, ev, s1, Step(s, ev), FirstFree(s1.pcbUsed));
  }

  lemma RootHaltIsLocal(s: State, ev: Event, s1: State, s': State, slot: nat)
    requires WellSized(s) && WellSized(s1) && WellSized(s') && 0 <= Running(s) < MAX_NUM_PROG
    requires ev.HaltCall? && s.pcbs[Running(s)].parent.None? && Foreground(s)
    requires s1.pcbs == s.pcbs && s1.pcbUsed == s.pcbUsed[Running(s) := false] && s1.active == s.active
    requires s1.termCurr == s.termCurr[s.active := None] && s.termCurr[s.active] == Some(Running(s))
    requires slot < MAX_NUM_PROG && !s1.pcbUsed[slot] && Running(s') == slot
    requires s'.pcbUsed == s1.pcbUsed[slot := true] && s'.termCurr == s1.termCurr[s1.active := Some(slot)]
    requires forall p :: 0 <= p < MAX_NUM_PROG && p != slot && p != Running(s) ==> s'.pcbs[p] == s1.pcbs[p]
    ensures Effects(s, ev, s')
  {
  }

  lemma StepEffects(s: State, ev: Event)
    requires Inv(s) && CanStep(s, ev) && Guard(s, ev)
    ensures Effects(s, ev, Step(s, ev))
  {
    var ch :| InvWith(s, ch);
    match ev
    case ExecuteCall(_, _) => ExecuteEffects(s, ch, ev);
    case HaltCall(_, _, _) =>
      if s.pcbs[Running(s)].parent.Some? { ChildHaltEffects(s, ch, ev); } else { RootHaltEffects(s, ch, ev); }
    case TimerTick(_) => TickEffects(s, ch, ev);
    case TerminalKey(_, _, _) => SwitchEffects(s, ch, ev);
  }

  // ----- Nesting of execute and halt -----

  /** Process p waits in execute for its child c, which will return to frame f. */
  ghost predicate Waiting(s: State, p: nat, c: nat, f: Frame) {
    && WellSized(s) && p < MAX_NUM_PROG && c < MAX_NUM_PROG
    && s.pcbUsed[p] && s.pcbUsed[c]
    && s.pcbs[c].parent == Some(p)
    && s.pcbs[c].oldEsp == f.esp && s.pcbs[c].oldEbp == f.ebp
  }

  /** The event is the halt of c, and it resumes p at frame f with c's status. */
  ghost predicate ReturnsTo(s: State, ev: Event, s': State, p: nat, c: nat, f: Frame)
    requires p < MAX_NUM_PROG && WellSized(s')
  {
    && ev.HaltCall? && Running(s) == c
    && s'.cpu == Resumed(Context(f.esp, f.ebp, RetHere))
    && s'.pcbs[p].returnVal == ev.status % 0x100
  }

  /** While p waits nothing can run it but the halt of the very child it waits for. */
  lemma WaitingStep(s: State, ev: Event, s': State, p: nat, c: nat, f: Frame)
    requires Inv(s) && Effects(s, ev, s') && Waiting(s, p, c, f)
    ensures if Running(s') == p then ReturnsTo(s, ev, s', p, c, f) else Waiting(s', p, c, f)
  {
    var ch :| InvWith(s, ch);
    var r: nat := Running(s);
    ParentIsOwn(s, ch, c);
    assert r != p;
  }

  lemma {:induction false} WaitingUntil(ss: seq<State>, evs: seq<Event>, p: nat, c: nat, f: Frame, k: nat)
    requires IsRun(ss, evs) && |ss| > 1 && Inv(ss[0]) && Waiting(ss[1], p, c, f) && 1 <= k < |ss|
    requires forall i :: 1 <= i <= k ==> Running(ss[i]) != p
    ensures Waiting(ss[k], p, c, f)
  {
    if k > 1 {
      WaitingUntil(ss, evs, p, c, f, k - 1);
      RunKeepsInv(ss, evs, k - 1);
      StepEffects(ss[k - 1], evs[k - 1]);
      WaitingStep(ss[k - 1], evs[k - 1], ss[k], p, c, f);
    }
  }

  lemma StartsWaiting(s: State, ev: Event) returns (p: nat, c: nat)
    requires Inv(s) && CanStep(s, ev) && Guard(s, ev)
    requires ev.ExecuteCall? && Running(Step(s, ev)) != Running(s)
    ensures p == Running(s) && c == Running(Step(s, ev)) && Waiting(Step(s, ev), p, c, ev.frame)
  {
    var ch :| InvWith(s, ch);
    TrapFindsRunning(s, ch, ev.frame);
    ExecuteCases(s, ev.image, ev.frame);
    p, c := Running(s), Running(Step(s, ev));
  }

  /** Execute and halt nest. If a process starts a child, then whatever runs in between, the step
      that first runs the process again is the halt of that child: it resumes at the stack frame
      that execute saved, and the value execute returns is that child's status. */
  lemma ExecuteReturnsChildStatus(ss: seq<State>, evs: seq<Event>, k: nat)
    requires IsRun(ss, evs) && Inv(ss[0]) && 1 < k < |ss|
    requires evs[0].ExecuteCall? && Running(ss[1]) != Running(ss[0])
    requires forall i :: 1 <= i < k ==> Running(ss[i]) != Running(ss[0])
    requires Running(ss[k]) == Running(ss[0])
    ensures var p := Running(ss[0]); var c := Running(ss[1]);
      && 0 <= p < MAX_NUM_PROG && 0 <= c < MAX_NUM_PROG && WellSized(ss[k])
      && ReturnsTo(ss[k - 1], evs[k - 1], ss[k], p, c, evs[0].frame)
  {
    var p: nat, c: nat := StartsWaiting(ss[0], evs[0]);
    WaitingUntil(ss, evs, p, c, evs[0].frame, k - 1);
    RunKeepsInv(ss, evs, k - 1);
    StepEffects(ss[k - 1], evs[k - 1]);
    WaitingStep(ss[k - 1], evs[k - 1], ss[k], p, c, evs[0].frame);
  }

  /** Process p is live and heads its terminal's queue entry with this return value. */
  ghost predicate HasReturned(s: State, p: nat, value: int) {
    && WellSized(s) && p < MAX_NUM_PROG && s.pcbUsed[p] && s.pcbs[p].terminal < NUM_TERMINALS
    && s.termCurr[s.pcbs[p].terminal] == Some(p)
    && s.pcbs[p].returnVal == value
  }

  /** Process p makes the event as a call of execute or halt. */
  predicate CallsAgain(s: State, ev: Event, p: nat) {
    Running(s) == p && (ev.ExecuteCall? || ev.HaltCall?)
  }

  /** No step but its own halt touches the return value of a process that heads its terminal's queue entry,
      and it stays at the head until it calls execute itself. */
  lemma ReturnValueStep(s: State, ev: Event, p: nat, value: int)
    requires Inv(s) && CanStep(s, ev) && Guard(s, ev) && HasReturned(s, p, value)
    requires !(Running(s) == p && ev.HaltCall?)
    ensures |Step(s, ev).pcbs| == MAX_NUM_PROG && |Step(s, ev).pcbUsed| == MAX_NUM_PROG
    ensures Step(s, ev).pcbUsed[p] && Step(s, ev).pcbs[p].returnVal == value
    ensures !CallsAgain(s, ev, p) ==> HasReturned(Step(s, ev), p, value)
  {
    StepEffects(s, ev);
    var ch :| InvWith(s, ch);
    if Running(s) != p && s.pcbs[Running(s)].parent.Some? { ParentIsOwn(s, ch, Running(s)); }
    if Running(s) == p && !CallsAgain(s, ev, p) { RunningKeepsQueue(s, ch, ev); }
  }

  /** A tick or a key leaves the running process at the head of its terminal's queue entry. */
  lemma RunningKeepsQueue(s: State, ch: seq<seq<nat>>, ev: Event)
    requires InvWith(s, ch) && CanStep(s, ev) && (ev.TimerTick? || ev.TerminalKey?)
    ensures var r := Running(s); var t := s.pcbs[r].terminal;
      |Step(s, ev).termCurr| == NUM_TERMINALS && Step(s, ev).termCurr[t] == Some(r)
  {
    TrapFindsRunning(s, ch, ev.frame);
    match ev
    case TimerTick(f) => TickTouches(s, f);
    case TerminalKey(t, shell, f) => ExecuteCases(s.(active := t), Some(shell), f);
  }

  lemma {:induction false} ReturnValueWaits(ss: seq<State>, evs: seq<Event>, p: nat, value: int, k: nat, m: nat)
    requires IsRun(ss, evs) && Inv(ss[0]) && k <= m < |ss| && HasReturned(ss[k], p, value)
    requires forall i :: k <= i < m ==> !CallsAgain(ss[i], evs[i], p)
    ensures HasReturned(ss[m], p, value)
    decreases m
  {
    if k < m {
      ReturnValueWaits(ss, evs, p, value, k, m - 1);
      RunKeepsInv(ss, evs, m - 1);
      ReturnValueStep(ss[m - 1], evs[m - 1], p, value);
    }
  }

  /** Until the caller of execute itself calls execute or halt again, however long it is kept from running,
      the value it finds is the status of the child it started: no other process can overwrite it. */
  lemma ExecuteReadsChildStatus(ss: seq<State>, evs: seq<Event>, k: nat, m: nat)
    requires IsRun(ss, evs) && Inv(ss[0]) && 1 < k <= m < |ss|
    requires evs[0].ExecuteCall? && Running(ss[1]) != Running(ss[0])
    requires forall i :: 1 <= i < k ==> Running(ss[i]) != Running(ss[0])
    requires Running(ss[k]) == Running(ss[0])
    requires forall i :: k <= i < m ==> !CallsAgain(ss[i], evs[i], Running(ss[0]))
    ensures 0 <= Running(ss[0]) < MAX_NUM_PROG && evs[k - 1].HaltCall?
    ensures HasReturned(ss[m], Running(ss[0]), evs[k - 1].status % 0x100)
  {
    ExecuteReturnsChildStatus(ss, evs, k);
    RunKeepsInv(ss, evs, k);
    var ch :| InvWith(ss[k], ch);
    ReturnValueWaits(ss, evs, Running(ss[0]), evs[k - 1].status % 0x100, k, m);
  }

  // ----- Saved contexts -----

  /** Process p is queued but not running, with the context saved in its record. */
  ghost predicate Suspended(s: State, p: nat, ctx: Context) {
    && WellSized(s) && p < MAX_NUM_PROG && s.pcbUsed[p] && s.pcbs[p].terminal < NUM_TERMINALS
    && s.termCurr[s.pcbs[p].terminal] == Some(p)
    && Running(s) != p
    && s.pcbs[p].ctx == ctx
  }

  /** A suspended process keeps its context until a timer tick resumes it exactly there. */
  lemma SuspendedStep(s: State, ev: Event, s': State, p: nat, ctx: Context)
    requires Inv(s) && Effects(s, ev, s') && Suspended(s, p, ctx)
    ensures if Running(s') == p then ev.TimerTick? && s'.cpu == Resumed(ctx) else Suspended(s', p, ctx)
  {
    var ch :| InvWith(s, ch);
    var r: nat := Running(s);
    if s.pcbs[r].parent.Some? { ParentIsOwn(s, ch, r); }
  }

  lemma {:induction false} SuspendedUntil(ss: seq<State>, evs: seq<Event>, p: nat, ctx: Context, k: nat)
    requires IsRun(ss, evs) && |ss| > 1 && Inv(ss[0]) && Suspended(ss[1], p, ctx) && 1 <= k < |ss|
    requires forall i :: 1 <= i <= k ==> Running(ss[i]) != p
    ensures Suspended(ss[k], p, ctx)
  {
    if k > 1 {
      SuspendedUntil(ss, evs, p, ctx, k - 1);
      RunKeepsInv(ss, evs, k - 1);
      StepEffects(ss[k - 1], evs[k - 1]);
      SuspendedStep(ss[k - 1], evs[k - 1], ss[k], p, ctx);
    }
  }

  lemma TickSuspends(s: State, ch: seq<seq<nat>>, f: Frame)
    requires InvWith(s, ch) && CanStep(s, TimerTick(f)) && Running(Tick(s, f)) != Running(s)
    ensures Suspended(Tick(s, f), Running(s), Context(f.esp, f.ebp, SwitchPoint))
  {
    TrapFindsRunning(s, ch, f);
    TickKeeps(s, ch, f);
  }

  /** A tick that finds no other terminal to run resumes the very registers that it interrupted. */
  lemma TickToItself(s: State, f: Frame)
    requires Inv(s) && CanStep(s, TimerTick(f)) && Running(Tick(s, f)) == Running(s)
    ensures Tick(s, f).cpu == Resumed(Context(f.esp, f.ebp, SwitchPoint))
  {
    StepEffects(s, TimerTick(f));
  }

  lemma KeySuspends(s: State, ch: seq<seq<nat>>, t: nat, shell: int, f: Frame)
    requires InvWith(s, ch) && CanStep(s, TerminalKey(t, shell, f))
    requires Running(SwitchTerminal(s, t, shell, f)) != Running(s)
    ensures Suspended(SwitchTerminal(s, t, shell, f), Running(s), Context(f.esp, f.ebp, RetHere))
  {
    TrapFindsRunning(s, ch, f);
    ExecuteCases(s.(active := t), Some(shell), f);
  }

  lemma ResumesAfterOthers(ss: seq<State>, evs: seq<Event>, k: nat)
    requires IsRun(ss, evs) && Inv(ss[0]) && 1 < k < |ss|
    requires evs[0].TimerTick? || evs[0].TerminalKey?
    requires forall i :: 1 <= i < k ==> Running(ss[i]) != Running(ss[0])
    requires Running(ss[k]) == Running(ss[0])
    ensures evs[k - 1].TimerTick?
    ensures ss[k].cpu == Resumed(Context(evs[0].frame.esp, evs[0].frame.ebp,
                                         if evs[0].TimerTick? then SwitchPoint else RetHere))
  {
    assert Running(ss[1]) != Running(ss[0]);
    var p, f, ch :| p == Running(ss[0]) && f == evs[0].frame && InvWith(ss[0], ch);
    var ctx := Context(f.esp, f.ebp, if evs[0].TimerTick? then SwitchPoint else RetHere);
    if evs[0].TimerTick? {
      TickSuspends(ss[0], ch, f);
    } else {
      KeySuspends(ss[0], ch, evs[0].terminal, evs[0].shell, f);
    }
    SuspendedUntil(ss, evs, p, ctx, k - 1);
    RunKeepsInv(ss, evs, k - 1);
    StepEffects(ss[k - 1], evs[k - 1]);
    SuspendedStep(ss[k - 1], evs[k - 1], ss[k], p, ctx);
  }

  /** A process that loses the processor to a tick, or to a shell started from the keyboard, is next
      run by a tick that resumes it at exactly the registers and label of that moment. So is one that a tick
      picks again itself. */
  lemma ResumesWhereSuspended(ss: seq<State>, evs: seq<Event>, k: nat)
    requires IsRun(ss, evs) && Inv(ss[0]) && 1 <= k < |ss|
    requires evs[0].TimerTick? || (evs[0].TerminalKey? && k > 1)
    requires forall i :: 1 <= i < k ==> Running(ss[i]) != Running(ss[0])
    requires Running(ss[k]) == Running(ss[0])
    ensures evs[k - 1].TimerTick?
    ensures ss[k].cpu == Resumed(Context(evs[0].frame.esp, evs[0].frame.ebp,
                                         if evs[0].TimerTick? then SwitchPoint else RetHere))
  {
    if k == 1 { TickToItself(ss[0], evs[0].frame); } else { ResumesAfterOthers(ss, evs, k); }
  }

  // ----- A run on which the guard fails -----

  ghost predicate OnStackOf(slot: nat, f: Frame) {
    KStackAddr(slot) - (PCB_OFFSET - 4) <= f.esp < KStackAddr(slot)
  }

  /** Slot 0 is the root shell of terminal 0, slot r runs, and slot n is free. */
  ghost predicate RootShell(s: State, r: nat, active: nat, n: nat) {
    && WellSized(s) && n < MAX_NUM_PROG && s.pcbUsed[0] && !s.pcbUsed[n]
    && s.pcbs[0].terminal == 0 && s.pcbs[0].parent == None
    && Running(s) == r && s.esp0 == KStackAddr(r) && s.active == active
  }

  lemma FirstShell(boot: State, shell: int, f: Frame)
    requires AtBoot(boot) && KERNEL_STACK_BOT - PCB_OFFSET <= f.esp < KERNEL_STACK_BOT
    ensures 0 <= SlotOf(f.esp) < MAX_NUM_PROG
    ensures var s := Execute(boot, Some(shell), f);
      && Inv(s) && RootShell(s, 0, 0, 1) && RootShell(s, 0, 0, 2)
      && s.termCurr == [Some(0), None, None]
  {
    BootEstablishes(boot, shell, f);
    assert boot.progUsedPage == boot.pcbUsed;
    ExecuteCases(boot, Some(shell), f);
  }

  lemma SecondShell(s: State, shell: int, f: Frame)
    requires Inv(s) && RootShell(s, 0, 0, 1) && RootShell(s, 0, 0, 2) && OnStackOf(0, f)
    requires s.termCurr == [Some(0), None, None]
    ensures 0 <= SlotOf(f.esp) < MAX_NUM_PROG
    ensures var s' := SwitchTerminal(s, 1, shell, f);
      RootShell(s', 1, 1, 2) && s'.termCurr == [Some(0), Some(1), None] && s'.pcbs[1].terminal == 1
  {
    var ch :| InvWith(s, ch);
    TrapFindsRunning(s, ch, f);
    var s1 := s.(active := 1);
    ExecuteCases(s1, Some(shell), f);
    assert FirstFree(s.pcbUsed) == 1;
    LaunchTouches(s1, 1, shell, f);
  }

  lemma NextOfTwo(tc: seq<Option<nat>>)
    requires tc == [Some(0), Some(1), None]
    ensures NextTerminal(tc, 1) == 0
  {
    assert Search(tc, 1, 2) == Search(tc, 1, 3) == 3;
  }

  lemma FirstShellAgain(s: State, f: Frame)
    requires Inv(s) && RootShell(s, 1, 1, 2) && OnStackOf(1, f)
    requires s.termCurr == [Some(0), Some(1), None] && s.pcbs[1].terminal == 1
    ensures OnSlot(s, f) && RootShell(Tick(s, f), 0, 1, 2)
  {
    var ch :| InvWith(s, ch);
    NextOfTwo(s.termCurr);
    TickKeeps(s, ch, f);
    TickTouches(s, f);
    assert Running(Tick(s, f)) == 0;
  }

  /** From boot, start a shell on terminal 1 from the keyboard, then take a tick: the shell of terminal 0
      runs while terminal 1 is active. */
  lemma BackgroundRuns(boot: State, shell: int, f0: Frame, f1: Frame, f2: Frame)
    returns (ss: seq<State>, evs: seq<Event>)
    requires AtBoot(boot) && KERNEL_STACK_BOT - PCB_OFFSET <= f0.esp < KERNEL_STACK_BOT
    requires OnStackOf(0, f1) && OnStackOf(1, f2)
    ensures 0 <= SlotOf(f0.esp) < MAX_NUM_PROG && IsRun(ss, evs) && |ss| == 3
    ensures ss[0] == Execute(boot, Some(shell), f0)
    ensures Inv(ss[2]) && RootShell(ss[2], 0, 1, 2)
  {
    FirstShell(boot, shell, f0);
    var s0 := Execute(boot, Some(shell), f0);
    var ev1, ev2 := TerminalKey(1, shell, f1), TimerTick(f2);
    SecondShell(s0, shell, f1);
    StepKeeps(s0, ev1);
    var s1 := Step(s0, ev1);
    FirstShellAgain(s1, f2);
    StepKeeps(s1, ev2);
    RunOfTwo(s0, ev1, ev2);
    ss, evs := [s0, s1, Step(s1, ev2)], [ev1, ev2];
  }

  lemma RunOfTwo(s: State, ev1: Event, ev2: Event)
    requires CanStep(s, ev1) && Guard(s, ev1) && CanStep(Step(s, ev1), ev2) && Guard(Step(s, ev1), ev2)
    ensures IsRun([s, Step(s, ev1), Step(Step(s, ev1), ev2)], [ev1, ev2])
  {
    var ss, evs := [s, Step(s, ev1), Step(Step(s, ev1), ev2)], [ev1, ev2];
    forall i | 0 <= i < 2
      ensures CanStep(ss[i], evs[i]) && Guard(ss[i], evs[i]) && ss[i + 1] == Step(ss[i], evs[i])
    {
      if i == 0 { assert ss[i] == s && evs[i] == ev1; } else { assert ss[i] == Step(s, ev1) && evs[i] == ev2; }
    }
  }

  /** The guard does fail: an execute, or a halt, by the process that this run leaves in the background
      breaks the invariant. */
  lemma GuardFailsOnRun(boot: State, shell: int, f0: Frame, f1: Frame, f2: Frame, ev: Event)
    returns (ss: seq<State>, evs: seq<Event>)
    requires AtBoot(boot) && KERNEL_STACK_BOT - PCB_OFFSET <= f0.esp < KERNEL_STACK_BOT
    requires OnStackOf(0, f1) && OnStackOf(1, f2) && OnStackOf(0, ev.frame)
    requires (ev.ExecuteCall? && ev.image.Some?) || ev.HaltCall?
    ensures 0 <= SlotOf(f0.esp) < MAX_NUM_PROG && IsRun(ss, evs) && |ss| == 3
    ensures ss[0] == Execute(boot, Some(shell), f0)
    ensures Inv(ss[2]) && CanStep(ss[2], ev) && !Guard(ss[2], ev) && !Inv(Step(ss[2], ev))
  {
    ss, evs := BackgroundRuns(boot, shell, f0, f1, f2);
    SlotOfStack(0, ev.frame.esp);
    assert FirstFree(ss[2].pcbUsed) <= 2;
    GuardIsExact(ss[2], ev);
  }
}
