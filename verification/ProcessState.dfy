/** The process tables of the kernel and the four steps that change them:
    execute, halt, a timer tick and a terminal switch.

    Each step is one function from state to state that follows the branches of the C code.
    The class `Kernel` in Kernel.dfy carries the same steps out on mutable tables. */
module ProcessState {
  import opened Options
  import opened Sequences

  const MAX_NUM_PROG: nat := 6
  const NUM_TERMINALS: nat := 3
  const KERNEL_STACK_BOT: int := 0x800000
  const PCB_OFFSET: int := 0x2000
  const FIRST_PROG_ADR: int := 0x800000
  const PROG_PAGE_SIZE: int := 0x400000
  /** 4 MB page, cache disabled, user, writable, present. */
  const PROG_FLAGS: int := 0x97

  // ----- Addresses -----

  /** The address of the process control block of a slot: each sits at the low end of its own 8 KB. */
  function PcbAddr(slot: nat): int {
    KERNEL_STACK_BOT - (slot + 1) * PCB_OFFSET
  }

  /** The bottom of the slot's kernel stack: the high end of the same 8 KB. */
  function KStackAddr(slot: nat): int {
    PcbAddr(slot) + PCB_OFFSET - 4
  }

  /** What masking a kernel stack pointer down to 8 KB finds: the slot whose stack it is on. */
  function SlotOf(esp: int): int {
    (KERNEL_STACK_BOT - (esp - esp % PCB_OFFSET)) / PCB_OFFSET - 1
  }

  /** The page directory entry that maps the 4 MB program frame of an index. */
  function PdEntry(idx: nat): int {
    FIRST_PROG_ADR + idx * PROG_PAGE_SIZE + PROG_FLAGS
  }

  // ----- State -----

  /** Where a suspended process continues: the end of the context switch, or the end of execute. */
  datatype Label = SwitchPoint | RetHere

  datatype Context = Context(esp: int, ebp: int, eip: Label)

  /** The registers of the running process when a step starts. */
  datatype Frame = Frame(esp: int, ebp: int)

  datatype Pcb = Pcb(
    parent: Option<nat>,
    ptIdx: nat,
    pcbIdx: nat,
    oldEsp: int,
    oldEbp: int,
    oldTssEsp: int,
    returnVal: int,
    terminal: nat,
    tssEsp: int,
    ctx: Context)

  /** What the processor does next: it has entered a fresh program, or resumed a saved context. */
  datatype Control = Booting | Entered(slot: nat, entry: int) | Resumed(ctx: Context)

  datatype State = State(
    pcbUsed: seq<bool>,
    progUsedPage: seq<bool>,
    pcbs: seq<Pcb>,
    termCurr: seq<Option<nat>>,
    pdEntry: int,
    esp0: int,
    active: nat,
    cpu: Control)

  /** The process the processor is executing. A resumed context belongs to the process
      whose kernel stack it lies on. */
  function Running(s: State): int {
    match s.cpu
    case Booting => -1
    case Entered(slot, _) => slot
    case Resumed(ctx) => SlotOf(ctx.esp)
  }

  predicate WellSized(s: State) {
    && |s.pcbUsed| == MAX_NUM_PROG
    && |s.progUsedPage| == MAX_NUM_PROG
    && |s.pcbs| == MAX_NUM_PROG
    && |s.termCurr| == NUM_TERMINALS
    && s.active < NUM_TERMINALS
    && forall t :: 0 <= t < NUM_TERMINALS && s.termCurr[t].Some? ==> s.termCurr[t].value < MAX_NUM_PROG
  }

  /** The step runs on the kernel stack of some slot whose record is readable. */
  predicate OnSlot(s: State, f: Frame) {
    && WellSized(s)
    && 0 <= SlotOf(f.esp) < MAX_NUM_PROG
    && var p := s.pcbs[SlotOf(f.esp)];
       && p.terminal < NUM_TERMINALS
       && p.pcbIdx < MAX_NUM_PROG
       && (p.parent.Some? ==> p.parent.value < MAX_NUM_PROG)
  }

  // ----- Allocators and mappings -----

  /** The first entry not in use, or the length of the table. */
  function FirstFree(used: seq<bool>): (i: nat)
    ensures i <= |used|
    ensures forall j :: 0 <= j < i ==> used[j]
    ensures i < |used| ==> !used[i]
  {
    FirstWhere(used, u => !u)
  }

  function SetProgPage(s: State, idx: nat): State
    requires WellSized(s)
  {
    if idx >= MAX_NUM_PROG then s
    else s.(pdEntry := PdEntry(idx), progUsedPage := s.progUsedPage[idx := true])
  }

  function FreeProgPage(s: State, idx: nat): State
    requires WellSized(s)
  {
    if idx >= MAX_NUM_PROG then s
    else s.(pdEntry := 0, progUsedPage := s.progUsedPage[idx := false])
  }

  // ----- Steps -----

  /** The record of a fresh process before its parent is known. */
  function FreshPcb(was: Pcb, slot: nat, page: nat, terminal: nat): Pcb {
    was.(ptIdx := page, pcbIdx := slot, terminal := terminal, tssEsp := KStackAddr(slot))
  }

  /** The second half of execute, once a page and a slot have been found. */
  function Launch(s: State, slot: nat, page: nat, entry: int, f: Frame): State
    requires WellSized(s) && slot < MAX_NUM_PROG && page < MAX_NUM_PROG
    requires 0 <= SlotOf(f.esp) < MAX_NUM_PROG
  {
    var self := SlotOf(f.esp);
    var fresh1 := FreshPcb(s.pcbs[slot], slot, page, s.active);
    var child := if s.termCurr[s.active].Some?
      then fresh1.(parent := Some(self), oldEsp := f.esp, oldEbp := f.ebp, oldTssEsp := s.esp0)
      else fresh1.(parent := None);
    var pcbs := s.pcbs[slot := child];
    s.(pcbUsed := s.pcbUsed[slot := true],
       progUsedPage := s.progUsedPage[page := true],
       pcbs := pcbs[self := pcbs[self].(ctx := Context(f.esp, f.ebp, RetHere))],
       termCurr := s.termCurr[s.active := Some(slot)],
       pdEntry := PdEntry(page),
       esp0 := KStackAddr(slot),
       cpu := Entered(slot, entry))
  }

  /** execute. `image` is the entry point of the named program, or None when no valid
      executable of that name exists. */
  function Execute(s: State, image: Option<int>, f: Frame): State
    requires WellSized(s) && 0 <= SlotOf(f.esp) < MAX_NUM_PROG
  {
    var page := FirstFree(s.progUsedPage);
    var slot := FirstFree(s.pcbUsed);
    if image.None? || page == MAX_NUM_PROG then s
    else if slot == MAX_NUM_PROG then
      s.(progUsedPage := s.progUsedPage[page := true], pdEntry := PdEntry(page))
    else Launch(s, slot, page, image.value, f)
  }

  /** halt of a process that has a parent. */
  function HaltChild(s: State, status: int, self: nat, parent: nat): State
    requires WellSized(s) && self < MAX_NUM_PROG && parent < MAX_NUM_PROG
    requires s.pcbs[self].terminal < NUM_TERMINALS && s.pcbs[self].pcbIdx < MAX_NUM_PROG
  {
    var p := s.pcbs[self];
    var s1 := s.(termCurr := s.termCurr[p.terminal := Some(parent)]);
    var s2 := SetProgPage(FreeProgPage(s1, p.ptIdx), s.pcbs[parent].ptIdx);
    s2.(esp0 := p.oldTssEsp,
        pcbUsed := s2.pcbUsed[p.pcbIdx := false],
        pcbs := s2.pcbs[parent := s2.pcbs[parent].(returnVal := status % 0x100)],
        cpu := Resumed(Context(p.oldEsp, p.oldEbp, RetHere)))
  }

  /** What halt of a process without a parent does before it starts the next shell. */
  function ReleaseRoot(s: State, self: nat): State
    requires WellSized(s) && self < MAX_NUM_PROG
    requires s.pcbs[self].terminal < NUM_TERMINALS && s.pcbs[self].pcbIdx < MAX_NUM_PROG
  {
    var p := s.pcbs[self];
    var s1 := FreeProgPage(s.(termCurr := s.termCurr[p.terminal := None]), p.ptIdx);
    s1.(esp0 := p.oldTssEsp, pcbUsed := s1.pcbUsed[p.pcbIdx := false])
  }

  function Halt(s: State, status: int, shell: int, f: Frame): State
    requires OnSlot(s, f)
  {
    var self := SlotOf(f.esp);
    match s.pcbs[self].parent
    case Some(parent) => HaltChild(s, status, self, parent)
    case None => Execute(ReleaseRoot(s, self), Some(shell), f)
  }

  /** The first terminal whose queue entry is the slot, or the number of terminals. */
  function QueueIndex(tc: seq<Option<nat>>, slot: nat): (j: nat)
    ensures j <= |tc|
    ensures forall i :: 0 <= i < j ==> tc[i] != Some(slot)
    ensures j < |tc| ==> tc[j] == Some(slot)
  {
    if tc == [] || tc[0] == Some(slot) then 0 else QueueIndex(tc[1..], slot) + 1
  }

  predicate AnyOccupied(tc: seq<Option<nat>>) {
    exists t :: 0 <= t < |tc| && tc[t].Some?
  }

  /** The round-robin search from i on: stop at an occupied terminal or back at q. */
  function Search(tc: seq<Option<nat>>, q: nat, i: nat): (k: nat)
    requires |tc| == NUM_TERMINALS && q < NUM_TERMINALS && q < i <= q + NUM_TERMINALS
    ensures i <= k <= q + NUM_TERMINALS
    ensures tc[k % NUM_TERMINALS].Some? || k == q + NUM_TERMINALS
    ensures forall j :: i <= j < k ==> tc[j % NUM_TERMINALS].None?
    decreases q + NUM_TERMINALS - i
  {
    if tc[i % NUM_TERMINALS].Some? || i == q + NUM_TERMINALS then i else Search(tc, q, i + 1)
  }

  /** If any terminal is occupied, the search stops at one. */
  lemma SearchFinds(tc: seq<Option<nat>>, q: nat)
    requires |tc| == NUM_TERMINALS && q < NUM_TERMINALS && AnyOccupied(tc)
    ensures tc[Search(tc, q, q + 1) % NUM_TERMINALS].Some?
  {
    var t :| 0 <= t < NUM_TERMINALS && tc[t].Some?;
    var j := if t > q then t else t + NUM_TERMINALS;
    assert tc[j % NUM_TERMINALS] == tc[t];
  }

  /** The terminal that a tick hands the processor to. The search starts after the terminal q that the
      running process is queued on, or after terminal 0 if it is on none, when q is the queue's length. */
  function NextTerminal(tc: seq<Option<nat>>, q: nat): (t: nat)
    requires |tc| == NUM_TERMINALS && q <= NUM_TERMINALS
    ensures t < NUM_TERMINALS
    ensures AnyOccupied(tc) ==> tc[t].Some?
  {
    var from := if q == NUM_TERMINALS then 0 else q;
    assert AnyOccupied(tc) ==> tc[Search(tc, from, from + 1) % NUM_TERMINALS].Some? by {
      if AnyOccupied(tc) { SearchFinds(tc, from); }
    }
    Search(tc, from, from + 1) % NUM_TERMINALS
  }

  /** The context switch: save the registers of `prev`, then load those of `next`. */
  function SwitchTo(s: State, prev: nat, next: nat, f: Frame): State
    requires WellSized(s) && prev < MAX_NUM_PROG && next < MAX_NUM_PROG
  {
    var pcbs := s.pcbs[prev := s.pcbs[prev].(ctx := Context(f.esp, f.ebp, SwitchPoint))];
    s.(pcbs := pcbs, cpu := Resumed(pcbs[next].ctx))
  }

  /** A timer tick. */
  function Tick(s: State, f: Frame): State
    requires OnSlot(s, f)
  {
    var self: nat := SlotOf(f.esp);
    var q := QueueIndex(s.termCurr, self);
    if !AnyOccupied(s.termCurr) then s
    else
      var next := s.termCurr[NextTerminal(s.termCurr, q)].value;
      var s1 := SetProgPage(s.(esp0 := s.pcbs[next].tssEsp), s.pcbs[next].ptIdx);
      SwitchTo(s1, self, next, f)
  }

  /** An empty terminal cannot be shown while all slots are taken. */
  predicate Refused(s: State, terminal: nat)
    requires WellSized(s) && terminal < NUM_TERMINALS
  {
    FirstFree(s.pcbUsed) == MAX_NUM_PROG && s.termCurr[terminal].None?
  }

  /** Alt with a function key: show another terminal, starting a shell there if it has none. */
  function SwitchTerminal(s: State, terminal: nat, shell: int, f: Frame): State
    requires WellSized(s) && 0 <= SlotOf(f.esp) < MAX_NUM_PROG && terminal < NUM_TERMINALS
  {
    if terminal == s.active then s
    else if Refused(s, terminal) then s
    else
      var s1 := s.(active := terminal);
      if s.termCurr[terminal].None? then Execute(s1, Some(shell), f) else s1
  }

  // ----- Events and runs -----

  datatype Event =
    | ExecuteCall(image: Option<int>, frame: Frame)
    | HaltCall(status: int, shell: int, frame: Frame)
    | TimerTick(frame: Frame)
    | TerminalKey(terminal: nat, shell: int, frame: Frame)

  /** The processor enters the kernel on the stack that the task state segment names. */
  predicate OnKernelStack(s: State, f: Frame) {
    s.esp0 - (PCB_OFFSET - 4) <= f.esp < s.esp0
  }

  predicate CanStep(s: State, ev: Event) {
    && OnSlot(s, ev.frame)
    && OnKernelStack(s, ev.frame)
    && (ev.TerminalKey? ==> ev.terminal < NUM_TERMINALS)
  }

  function Step(s: State, ev: Event): State
    requires CanStep(s, ev)
  {
    match ev
    case ExecuteCall(image, f) => Execute(s, image, f)
    case HaltCall(status, shell, f) => Halt(s, status, shell, f)
    case TimerTick(f) => Tick(s, f)
    case TerminalKey(t, shell, f) => SwitchTerminal(s, t, shell, f)
  }
}
