/** The joint invariant that the process tables keep, and the proof that every step keeps it
    exactly when the step's caller is allowed to make it. */
module ProcessInvariant {
  import opened Options
  import opened ProcessState
  import opened Sequences

  // ----- Parent chains -----

  /** Link i of the chain of terminal t: a live process of that terminal whose record leads to the
      next link, or to nothing at the end. A parent's stack is where its child's return leads. */
  ghost predicate LinkOk(s: State, c: seq<nat>, t: nat, i: nat)
    requires WellSized(s) && i < |c|
  {
    && c[i] < MAX_NUM_PROG
    && s.pcbUsed[c[i]]
    && var p := s.pcbs[c[i]];
       && p.terminal == t
       && (if i + 1 < |c|
           then p.parent == Some(c[i + 1]) && SlotOf(p.oldEsp) == c[i + 1] && p.oldTssEsp == KStackAddr(c[i + 1])
           else p.parent == None)
  }

  /** The chain starts at the terminal's queue entry, repeats nothing and ends without a parent. */
  ghost predicate ChainOk(s: State, c: seq<nat>, t: nat)
    requires WellSized(s) && t < NUM_TERMINALS
  {
    && s.termCurr[t] == (if c == [] then None else Some(c[0]))
    && Distinct(c)
    && forall i :: 0 <= i < |c| ==> LinkOk(s, c, t, i)
  }

  /** The live processes are partitioned into one parent chain per terminal. */
  ghost predicate ChainsOk(s: State, ch: seq<seq<nat>>)
    requires WellSized(s)
  {
    && |ch| == NUM_TERMINALS
    && (forall t :: 0 <= t < NUM_TERMINALS ==> ChainOk(s, ch[t], t))
    && (forall p :: 0 <= p < MAX_NUM_PROG && s.pcbUsed[p] ==>
          s.pcbs[p].terminal < NUM_TERMINALS && p in ch[s.pcbs[p].terminal])
  }

  // ----- The parts of the invariant -----

  /** The two allocators agree, and a live record knows its own slot, frame and stack. */
  ghost predicate Lockstep(s: State)
    requires WellSized(s)
  {
    && s.progUsedPage == s.pcbUsed
    && forall p :: 0 <= p < MAX_NUM_PROG && s.pcbUsed[p] ==>
         s.pcbs[p].ptIdx == p && s.pcbs[p].pcbIdx == p && s.pcbs[p].tssEsp == KStackAddr(p)
  }

  /** Every queued process but one has a saved context on its own kernel stack. */
  ghost predicate QueueOk(s: State, except: int)
    requires WellSized(s)
  {
    forall t :: 0 <= t < NUM_TERMINALS && s.termCurr[t].Some? && s.termCurr[t].value != except ==>
      SlotOf(s.pcbs[s.termCurr[t].value].ctx.esp) == s.termCurr[t].value
  }

  /** The running process heads its own terminal's chain, its own frame is mapped and the next
      trap will land on its own kernel stack. */
  ghost predicate RunningOk(s: State)
    requires WellSized(s)
  {
    var r := Running(s);
    && 0 <= r < MAX_NUM_PROG
    && s.pcbUsed[r]
    && s.pcbs[r].terminal < NUM_TERMINALS
    && s.termCurr[s.pcbs[r].terminal] == Some(r)
    && s.pdEntry == PdEntry(r)
    && s.esp0 == KStackAddr(r)
  }

  ghost predicate InvWith(s: State, ch: seq<seq<nat>>) {
    && WellSized(s)
    && ChainsOk(s, ch)
    && Lockstep(s)
    && RunningOk(s)
    && QueueOk(s, Running(s))
    && s.termCurr[s.active].Some?
  }

  /** The joint invariant of the process tables. */
  ghost predicate Inv(s: State) {
    exists ch :: InvWith(s, ch)
  }

  /** The running process belongs to the terminal on the screen. */
  predicate Foreground(s: State)
    requires WellSized(s)
  {
    0 <= Running(s) < MAX_NUM_PROG && s.pcbs[Running(s)].terminal == s.active
  }

  /** What the caller of a step must see to for the invariant to survive: a process that starts
      another one, or that makes way for a new shell, must be on the terminal on the screen. */
  predicate Guard(s: State, ev: Event)
    requires CanStep(s, ev)
  {
    match ev
    case ExecuteCall(image, f) =>
      image.None? || FirstFree(s.pcbUsed) == MAX_NUM_PROG || Foreground(s)
    case HaltCall(_, _, f) => s.pcbs[SlotOf(f.esp)].parent.Some? || Foreground(s)
    case TimerTick(_) => true
    case TerminalKey(_, _, _) => true
  }

  // ----- Addresses -----

  /** Anywhere on a slot's kernel stack, masking the stack pointer finds that slot. */
  lemma SlotOfStack(slot: nat, esp: int)
    requires KStackAddr(slot) - (PCB_OFFSET - 4) <= esp <= KStackAddr(slot)
    ensures SlotOf(esp) == slot
  {
    assert esp - PcbAddr(slot) == esp % PCB_OFFSET;
  }

  /** The processor's stack pointer names the running process. */
  lemma TrapFindsRunning(s: State, ch: seq<seq<nat>>, f: Frame)
    requires InvWith(s, ch) && OnKernelStack(s, f)
    ensures SlotOf(f.esp) == Running(s)
    ensures OnSlot(s, f) && Some(SlotOf(f.esp) as nat) in s.termCurr
  {
    var r: nat := Running(s);
    SlotOfStack(r, f.esp);
    var t := s.pcbs[r].terminal;
    var i :| 0 <= i < |ch[t]| && ch[t][i] == r;
    assert ChainOk(s, ch[t], t);
    assert LinkOk(s, ch[t], t, i);
    if i + 1 < |ch[t]| { assert LinkOk(s, ch[t], t, i + 1); }
    assert s.termCurr[t] == Some(r);
  }

  // ----- Chains under updates -----

  /** A chain does not notice changes outside it, nor new contexts and return values. */
  lemma ChainFrame(s: State, s': State, c: seq<nat>, t: nat)
    requires WellSized(s) && WellSized(s') && t < NUM_TERMINALS && ChainOk(s, c, t)
    requires s'.termCurr[t] == s.termCurr[t]
    requires forall p :: 0 <= p < MAX_NUM_PROG && p in c ==>
      s'.pcbUsed[p] && s'.pcbs[p] == s.pcbs[p].(ctx := s'.pcbs[p].ctx, returnVal := s'.pcbs[p].returnVal)
    ensures ChainOk(s', c, t)
  {
    forall i | 0 <= i < |c| ensures LinkOk(s', c, t, i) {
      assert LinkOk(s, c, t, i);
    }
  }

  /** A process on a chain belongs to the chain of its own terminal only. */
  lemma OnOneChain(s: State, ch: seq<seq<nat>>, t: nat, p: nat)
    requires WellSized(s) && ChainsOk(s, ch) && t < NUM_TERMINALS && p in ch[t]
    ensures p < MAX_NUM_PROG && s.pcbUsed[p] && s.pcbs[p].terminal == t
  {
    assert ChainOk(s, ch[t], t);
    var i :| 0 <= i < |ch[t]| && ch[t][i] == p;
    assert LinkOk(s, ch[t], t, i);
  }

  // ----- Execute -----

  /** The state in which execute may launch: the tables are in order, and the active terminal is
      empty or headed by the caller, whose stack the task state segment names. */
  ghost predicate ReadyToLaunch(s: State, ch: seq<seq<nat>>, f: Frame) {
    && WellSized(s)
    && 0 <= SlotOf(f.esp) < MAX_NUM_PROG
    && ChainsOk(s, ch)
    && Lockstep(s)
    && QueueOk(s, SlotOf(f.esp))
    && (s.termCurr[s.active].Some? ==>
          s.termCurr[s.active].value == SlotOf(f.esp) && s.esp0 == KStackAddr(SlotOf(f.esp)))
  }

  /** Launching pushes the new process on the active terminal's chain. */
  lemma LaunchKeepsChains(s: State, ch: seq<seq<nat>>, slot: nat, entry: int, f: Frame)
    requires ReadyToLaunch(s, ch, f) && slot < MAX_NUM_PROG && !s.pcbUsed[slot]
    ensures WellSized(Launch(s, slot, slot, entry, f))
    ensures ChainsOk(Launch(s, slot, slot, entry, f), ch[s.active := [slot] + ch[s.active]])
  {
    var s' := Launch(s, slot, slot, entry, f);
    var a := s.active;
    var ch' := ch[a := [slot] + ch[a]];
    forall t, p | 0 <= t < NUM_TERMINALS && p in ch[t] ensures p < MAX_NUM_PROG && s.pcbUsed[p] && p != slot {
      OnOneChain(s, ch, t, p);
    }
    forall t | 0 <= t < NUM_TERMINALS ensures ChainOk(s', ch'[t], t) {
      assert ChainOk(s, ch[t], t);
      if t != a {
        ChainFrame(s, s', ch[t], t);
      } else {
        forall i | 0 <= i < |ch'[a]| ensures LinkOk(s', ch'[a], a, i) {
          if i > 0 { assert LinkOk(s, ch[a], a, i - 1); }
        }
      }
    }
    forall p | 0 <= p < MAX_NUM_PROG && s'.pcbUsed[p]
      ensures s'.pcbs[p].terminal < NUM_TERMINALS && p in ch'[s'.pcbs[p].terminal]
    {
      if p == slot { assert ch'[a][0] == slot; }
    }
  }

  /** The rest of the invariant after a launch: the new process runs, its caller's context is saved. */
  lemma LaunchKeepsQueue(s: State, ch: seq<seq<nat>>, slot: nat, entry: int, f: Frame)
    requires ReadyToLaunch(s, ch, f) && slot < MAX_NUM_PROG && !s.pcbUsed[slot]
    ensures var s' := Launch(s, slot, slot, entry, f);
      WellSized(s') && Lockstep(s') && RunningOk(s') && QueueOk(s', slot) && Running(s') == slot
  {
    var s' := Launch(s, slot, slot, entry, f);
    forall t | 0 <= t < NUM_TERMINALS && s'.termCurr[t].Some? && t != s.active
      ensures s'.termCurr[t].value != slot && s'.termCurr[t] == s.termCurr[t]
    {
      QueueEntryIsOwn(s, ch, t);
    }
  }

  lemma LaunchKeeps(s: State, ch: seq<seq<nat>>, slot: nat, entry: int, f: Frame)
    requires ReadyToLaunch(s, ch, f) && slot < MAX_NUM_PROG && !s.pcbUsed[slot]
    ensures InvWith(Launch(s, slot, slot, entry, f), ch[s.active := [slot] + ch[s.active]])
  {
    LaunchKeepsChains(s, ch, slot, entry, f);
    LaunchKeepsQueue(s, ch, slot, entry, f);
  }

  /** Execute either launches in the first free slot or changes nothing. */
  lemma ExecuteCases(s: State, image: Option<int>, f: Frame)
    requires WellSized(s) && Lockstep(s) && 0 <= SlotOf(f.esp) < MAX_NUM_PROG
    ensures var slot := FirstFree(s.pcbUsed);
      Execute(s, image, f) ==
      if image.None? || slot == MAX_NUM_PROG then s else Launch(s, slot, slot, image.value, f)
  {
  }

  // ----- Halt -----

  /** The running process is the first link of its terminal's chain. */
  lemma RunningHeadsChain(s: State, ch: seq<seq<nat>>)
    requires InvWith(s, ch)
    ensures var t := s.pcbs[Running(s)].terminal; ch[t] != [] && ch[t][0] == Running(s) && LinkOk(s, ch[t], t, 0)
  {
    var t := s.pcbs[Running(s)].terminal;
    assert ChainOk(s, ch[t], t);
    assert LinkOk(s, ch[t], t, 0);
  }

  /** Dropping the head of terminal t's chain and freeing its slot and frame leaves the tables in order. */
  lemma PopKeepsChains(s: State, s': State, ch: seq<seq<nat>>, t: nat)
    requires WellSized(s) && WellSized(s') && ChainsOk(s, ch) && t < NUM_TERMINALS && ch[t] != []
    requires ch[t][0] < MAX_NUM_PROG && s'.pcbUsed == s.pcbUsed[ch[t][0] := false]
    requires s'.termCurr == s.termCurr[t := if |ch[t]| == 1 then None else Some(ch[t][1])]
    requires forall p :: 0 <= p < MAX_NUM_PROG ==> s'.pcbs[p] == s.pcbs[p].(returnVal := s'.pcbs[p].returnVal)
    ensures ChainsOk(s', ch[t := ch[t][1..]])
  {
    var ch' := ch[t := ch[t][1..]];
    var dead := ch[t][0];
    assert dead in ch[t];
    OnOneChain(s, ch, t, dead);
    assert ChainOk(s, ch[t], t);
    forall u | 0 <= u < NUM_TERMINALS ensures ChainOk(s', ch'[u], u) {
      assert ChainOk(s, ch[u], u);
      if u != t {
        forall p | p in ch[u] ensures p < MAX_NUM_PROG && s'.pcbUsed[p] {
          OnOneChain(s, ch, u, p);
        }
        ChainFrame(s, s', ch[u], u);
      } else {
        forall i | 0 <= i < |ch'[t]| ensures LinkOk(s', ch'[t], t, i) {
          assert LinkOk(s, ch[t], t, i + 1);
        }
      }
    }
    forall p | 0 <= p < MAX_NUM_PROG && s'.pcbUsed[p]
      ensures s'.pcbs[p].terminal < NUM_TERMINALS && p in ch'[s'.pcbs[p].terminal]
    {
      var u := s.pcbs[p].terminal;
      var i :| 0 <= i < |ch[u]| && ch[u][i] == p;
      if u == t { assert ch'[t][i - 1] == p; }
    }
  }

  lemma HaltChildKeeps(s: State, ch: seq<seq<nat>>, status: int)
    requires InvWith(s, ch) && s.pcbs[Running(s)].parent.Some?
    ensures var r := Running(s); var t := s.pcbs[r].terminal; var parent := s.pcbs[r].parent.value;
      && s.pcbs[r].pcbIdx == r && parent < MAX_NUM_PROG
      && var s' := HaltChild(s, status, r, parent);
         InvWith(s', ch[t := ch[t][1..]]) && Running(s') == parent
  {
    var r: nat := Running(s);
    var t := s.pcbs[r].terminal;
    RunningHeadsChain(s, ch);
    assert ChainOk(s, ch[t], t);
    assert LinkOk(s, ch[t], t, 1);
    var parent := s.pcbs[r].parent.value;
    var s' := HaltChild(s, status, r, parent);
    PopKeepsChains(s, s', ch, t);
    forall u | 0 <= u < NUM_TERMINALS && s.termCurr[u] == Some(r) ensures u == t {
      QueueEntryIsOwn(s, ch, u);
    }
  }

  lemma ReleaseRootReady(s: State, ch: seq<seq<nat>>, f: Frame)
    requires InvWith(s, ch) && OnKernelStack(s, f) && s.pcbs[Running(s)].parent.None? && Foreground(s)
    ensures var r := Running(s);
      && SlotOf(f.esp) == r && s.pcbs[r].pcbIdx == r
      && var s1 := ReleaseRoot(s, r);
         ReadyToLaunch(s1, ch[s.active := []], f) && FirstFree(s1.pcbUsed) < MAX_NUM_PROG
  {
    var r: nat := Running(s);
    TrapFindsRunning(s, ch, f);
    RunningHeadsChain(s, ch);
    var s1 := ReleaseRoot(s, r);
    PopKeepsChains(s, s1, ch, s.active);
    assert ch[s.active][1..] == [];
    assert !s1.pcbUsed[r];
  }

  // ----- One step -----

  /** Under its guard every step keeps the invariant. */
  lemma StepKeeps(s: State, ev: Event)
    requires Inv(s) && OnKernelStack(s, ev.frame) && (ev.TerminalKey? ==> ev.terminal < NUM_TERMINALS)
    ensures CanStep(s, ev)
    ensures Guard(s, ev) ==> Inv(Step(s, ev))
  {
    var ch :| InvWith(s, ch);
    TrapFindsRunning(s, ch, ev.frame);
    if Guard(s, ev) {
      match ev
      case ExecuteCall(image, f) =>
        ExecuteKeeps(s, ch, image, f);
      case HaltCall(status, shell, f) =>
        if s.pcbs[Running(s)].parent.Some? {
          HaltChildKeeps(s, ch, status);
        } else {
          RootHaltKeeps(s, ch, status, shell, f);
        }
      case TimerTick(f) =>
        TickKeeps(s, ch, f);
      case TerminalKey(t, shell, f) =>
        SwitchKeeps(s, ch, t, shell, f);
    }
  }

  lemma RootHaltKeeps(s: State, ch: seq<seq<nat>>, status: int, shell: int, f: Frame)
    requires InvWith(s, ch) && OnKernelStack(s, f) && s.pcbs[Running(s)].parent.None? && Foreground(s)
    ensures OnSlot(s, f) && Inv(Halt(s, status, shell, f))
  {
    TrapFindsRunning(s, ch, f);
    ReleaseRootReady(s, ch, f);
    var s1 := ReleaseRoot(s, Running(s));
    ExecuteCases(s1, Some(shell), f);
    LaunchKeeps(s1, ch[s.active := []], FirstFree(s1.pcbUsed), shell, f);
  }

  lemma ExecuteKeeps(s: State, ch: seq<seq<nat>>, image: Option<int>, f: Frame)
    requires InvWith(s, ch) && OnKernelStack(s, f)
    requires image.None? || FirstFree(s.pcbUsed) == MAX_NUM_PROG || Foreground(s)
    ensures 0 <= SlotOf(f.esp) < MAX_NUM_PROG && Inv(Execute(s, image, f))
  {
    TrapFindsRunning(s, ch, f);
    ExecuteCases(s, image, f);
    if image.Some? && FirstFree(s.pcbUsed) < MAX_NUM_PROG {
      LaunchKeeps(s, ch, FirstFree(s.pcbUsed), image.value, f);
    }
  }

  lemma TickKeeps(s: State, ch: seq<seq<nat>>, f: Frame)
    requires InvWith(s, ch) && OnKernelStack(s, f)
    ensures OnSlot(s, f) && Some(SlotOf(f.esp) as nat) in s.termCurr
    ensures InvWith(Tick(s, f), ch)
    ensures var t := s.pcbs[Running(s)].terminal;
      s.termCurr[NextTerminal(s.termCurr, t)] == Some(Running(Tick(s, f)))
  {
    TrapFindsRunning(s, ch, f);
    var r: nat := Running(s);
    var s' := Tick(s, f);
    var q := QueueIndex(s.termCurr, r);
    QueueEntryIsOwn(s, ch, q);
    var next := s.termCurr[NextTerminal(s.termCurr, q)].value;
    QueueEntryIsOwn(s, ch, NextTerminal(s.termCurr, q));
    assert s'.progUsedPage == s.progUsedPage;
    forall t | 0 <= t < NUM_TERMINALS ensures ChainOk(s', ch[t], t) {
      forall p | p in ch[t] ensures p < MAX_NUM_PROG && s.pcbUsed[p] {
        OnOneChain(s, ch, t, p);
      }
      ChainFrame(s, s', ch[t], t);
    }
  }

  /** A queue entry is a live process of that very terminal. */
  lemma QueueEntryIsOwn(s: State, ch: seq<seq<nat>>, t: nat)
    requires WellSized(s) && ChainsOk(s, ch) && t < NUM_TERMINALS && s.termCurr[t].Some?
    ensures var p := s.termCurr[t].value; s.pcbUsed[p] && s.pcbs[p].terminal == t && p in ch[t]
  {
    assert ChainOk(s, ch[t], t);
    assert LinkOk(s, ch[t], t, 0);
  }

  /** Which terminal is active makes no difference to the chains. */
  lemma ChainsOfAny(s: State, s1: State, ch: seq<seq<nat>>)
    requires WellSized(s) && WellSized(s1) && ChainsOk(s, ch)
    requires s1.pcbUsed == s.pcbUsed && s1.pcbs == s.pcbs && s1.termCurr == s.termCurr
    ensures ChainsOk(s1, ch)
  {
    forall t | 0 <= t < NUM_TERMINALS ensures ChainOk(s1, ch[t], t) {
      assert ChainOk(s, ch[t], t);
      forall i | 0 <= i < |ch[t]| ensures LinkOk(s1, ch[t], t, i) {
        assert LinkOk(s, ch[t], t, i);
      }
    }
  }

  lemma SwitchKeeps(s: State, ch: seq<seq<nat>>, t: nat, shell: int, f: Frame)
    requires InvWith(s, ch) && OnKernelStack(s, f) && t < NUM_TERMINALS
    ensures 0 <= SlotOf(f.esp) < MAX_NUM_PROG && Inv(SwitchTerminal(s, t, shell, f))
  {
    TrapFindsRunning(s, ch, f);
    if t != s.active {
      var s1 := s.(active := t);
      ChainsOfAny(s, s1, ch);
      if s.termCurr[t].Some? {
        assert InvWith(s1, ch);
      } else {
        ExecuteCases(s1, Some(shell), f);
        if FirstFree(s.pcbUsed) < MAX_NUM_PROG {
          LaunchKeeps(s1, ch, FirstFree(s.pcbUsed), shell, f);
        }
      }
    }
  }

  /** The parent of a live process is a live process of the same terminal, its return context lies
      on the parent's stack, and no two live processes share a parent. */
  lemma ParentIsOwn(s: State, ch: seq<seq<nat>>, p: nat)
    requires WellSized(s) && ChainsOk(s, ch) && p < MAX_NUM_PROG && s.pcbUsed[p] && s.pcbs[p].parent.Some?
    ensures var q := s.pcbs[p].parent.value;
      && q < MAX_NUM_PROG && s.pcbUsed[q] && q != p
      && s.pcbs[q].terminal == s.pcbs[p].terminal
      && SlotOf(s.pcbs[p].oldEsp) == q
      && (forall u :: 0 <= u < NUM_TERMINALS ==> s.termCurr[u] != Some(q))
      && (forall o :: 0 <= o < MAX_NUM_PROG && s.pcbUsed[o] && s.pcbs[o].parent == Some(q) ==> o == p)
  {
    var t := s.pcbs[p].terminal;
    assert ChainOk(s, ch[t], t);
    var i :| 0 <= i < |ch[t]| && ch[t][i] == p;
    assert LinkOk(s, ch[t], t, i);
    assert LinkOk(s, ch[t], t, i + 1);
    var q := s.pcbs[p].parent.value;
    forall u | 0 <= u < NUM_TERMINALS ensures s.termCurr[u] != Some(q) {
      if s.termCurr[u] == Some(q) { QueueEntryIsOwn(s, ch, u); }
    }
    forall o | 0 <= o < MAX_NUM_PROG && s.pcbUsed[o] && s.pcbs[o].parent == Some(q) ensures o == p {
      var u := s.pcbs[o].terminal;
      assert ChainOk(s, ch[u], u);
      var j :| 0 <= j < |ch[u]| && ch[u][j] == o;
      assert LinkOk(s, ch[u], u, j);
      assert LinkOk(s, ch[u], u, j + 1);
    }
  }

  // ----- The guard is exact -----

  /** A launch by a process of another terminal hangs the new process under a parent that is not on
      its chain. */
  lemma BackgroundLaunchBreaks(s: State, slot: nat, entry: int, f: Frame)
    requires WellSized(s) && slot < MAX_NUM_PROG && 0 <= SlotOf(f.esp) < MAX_NUM_PROG
    requires s.termCurr[s.active].Some? && s.pcbs[SlotOf(f.esp)].terminal != s.active
    ensures !Inv(Launch(s, slot, slot, entry, f))
  {
    var s' := Launch(s, slot, slot, entry, f);
    if Inv(s') {
      var ch' :| InvWith(s', ch');
      QueueEntryIsOwn(s', ch', s.active);
      ParentIsOwn(s', ch', slot);
    }
  }

  /** The guard is not only enough: a step taken against it always breaks the invariant. */
  lemma GuardIsExact(s: State, ev: Event)
    requires Inv(s) && OnKernelStack(s, ev.frame) && (ev.TerminalKey? ==> ev.terminal < NUM_TERMINALS)
    ensures CanStep(s, ev)
    ensures Inv(Step(s, ev)) <==> Guard(s, ev)
  {
    StepKeeps(s, ev);
    if !Guard(s, ev) {
      var ch :| InvWith(s, ch);
      TrapFindsRunning(s, ch, ev.frame);
      var r: nat := Running(s);
      var slot := FirstFree(s.pcbUsed);
      match ev
      case ExecuteCall(image, f) =>
        ExecuteCases(s, image, f);
        BackgroundLaunchBreaks(s, slot, image.value, f);
      case HaltCall(_, shell, f) =>
        RunningHeadsChain(s, ch);
        var s1 := ReleaseRoot(s, r);
        PopKeepsChains(s, s1, ch, s.pcbs[r].terminal);
        ExecuteCases(s1, Some(shell), f);
        assert !s1.pcbUsed[r];
        BackgroundLaunchBreaks(s1, FirstFree(s1.pcbUsed), shell, f);
    }
  }

  // ----- Boot -----

  /** The tables before the first shell: nothing is used, and the boot code runs on the stack
      that ends at the bottom of kernel space. */
  ghost predicate AtBoot(s: State) {
    && WellSized(s)
    && (forall p :: 0 <= p < MAX_NUM_PROG ==> !s.pcbUsed[p] && !s.progUsedPage[p])
    && (forall t :: 0 <= t < NUM_TERMINALS ==> s.termCurr[t] == None)
    && s.esp0 == KERNEL_STACK_BOT
    && s.active == 0
    && s.cpu == Booting
  }

  /** The first execute establishes the invariant. */
  lemma BootEstablishes(s: State, shell: int, f: Frame)
    requires AtBoot(s) && KERNEL_STACK_BOT - PCB_OFFSET <= f.esp < KERNEL_STACK_BOT
    ensures SlotOf(f.esp) == 0
    ensures Inv(Execute(s, Some(shell), f)) && Running(Execute(s, Some(shell), f)) == 0
  {
    var ch: seq<seq<nat>> := [[], [], []];
    forall t | 0 <= t < NUM_TERMINALS ensures ChainOk(s, ch[t], t) {}
    assert s.progUsedPage == s.pcbUsed;
    ExecuteCases(s, Some(shell), f);
    LaunchKeeps(s, ch, 0, shell, f);
  }
}
