/** The kernel's process code on its own mutable tables. Every method is proved to carry out the
    step of the same name in ProcessState. */
module KernelCode {
  import opened Options
  import opened ProcessState
  import opened ProcessInvariant

  class Kernel {
    const pcbUsed: array<bool>
    const progUsedPage: array<bool>
    const pcbs: array<Pcb>
    const termCurr: array<Option<nat>>
    var pdEntry: int
    var esp0: int
    var active: nat
    var cpu: Control

    ghost predicate Valid()
      reads this, pcbUsed, progUsedPage, pcbs, termCurr
    {
      && pcbUsed != progUsedPage
      && WellSized(Abs())
    }

    /** The tables as one value. */
    ghost function Abs(): State
      reads this, pcbUsed, progUsedPage, pcbs, termCurr
    {
      State(pcbUsed[..], progUsedPage[..], pcbs[..], termCurr[..], pdEntry, esp0, active, cpu)
    }

    /** The tables as the boot code leaves them. */
    constructor ()
      ensures Valid() && AtBoot(Abs())
      ensures fresh(pcbUsed) && fresh(progUsedPage) && fresh(pcbs) && fresh(termCurr)
    {
      pcbUsed := new bool[MAX_NUM_PROG](_ => false);
      progUsedPage := new bool[MAX_NUM_PROG](_ => false);
      pcbs := new Pcb[MAX_NUM_PROG];
      termCurr := new Option<nat>[NUM_TERMINALS](_ => None);
      pdEntry := 0;
      esp0 := KERNEL_STACK_BOT;
      active := 0;
      cpu := Booting;
    }

    /** Take the first free frame and map it; -1 when all are taken. */
    method AddProgPage() returns (idx: int)
      requires Valid()
      modifies this`pdEntry, progUsedPage
      ensures Valid()
      ensures idx == -1 ==> FirstFree(old(progUsedPage[..])) == MAX_NUM_PROG && Abs() == old(Abs())
      ensures idx != -1 ==> idx == FirstFree(old(progUsedPage[..])) < MAX_NUM_PROG
      ensures idx != -1 ==>
        Abs() == old(Abs()).(progUsedPage := old(progUsedPage[..])[idx := true], pdEntry := PdEntry(idx))
    {
      var i := 0;
      while i < MAX_NUM_PROG && progUsedPage[i]
        invariant 0 <= i <= MAX_NUM_PROG
        invariant forall j :: 0 <= j < i ==> progUsedPage[j]
      {
        i := i + 1;
      }
      FirstFreeIs(progUsedPage[..], i);
      if i >= MAX_NUM_PROG {
        return -1;
      }
      progUsedPage[i] := true;
      pdEntry := FIRST_PROG_ADR + i * PROG_PAGE_SIZE + PROG_FLAGS;
      return i;
    }

    /** Take the first free process slot; -1 when all are taken. */
    method AddPcb() returns (idx: int)
      requires Valid()
      modifies pcbUsed
      ensures Valid()
      ensures idx == -1 ==> FirstFree(old(pcbUsed[..])) == MAX_NUM_PROG && Abs() == old(Abs())
      ensures idx != -1 ==> idx == FirstFree(old(pcbUsed[..])) < MAX_NUM_PROG
      ensures idx != -1 ==> Abs() == old(Abs()).(pcbUsed := old(pcbUsed[..])[idx := true])
    {
      var i := 0;
      while i < MAX_NUM_PROG && pcbUsed[i]
        invariant 0 <= i <= MAX_NUM_PROG
        invariant forall j :: 0 <= j < i ==> pcbUsed[j]
      {
        i := i + 1;
      }
      FirstFreeIs(pcbUsed[..], i);
      if i < MAX_NUM_PROG {
        pcbUsed[i] := true;
        return i;
      }
      return -1;
    }

    method MapProgPage(idx: nat)
      requires Valid()
      modifies this`pdEntry, progUsedPage
      ensures Valid() && Abs() == SetProgPage(old(Abs()), idx)
    {
      if idx < MAX_NUM_PROG {
        pdEntry := FIRST_PROG_ADR + idx * PROG_PAGE_SIZE + PROG_FLAGS;
        progUsedPage[idx] := true;
      }
    }

    method ReleaseProgPage(idx: nat)
      requires Valid()
      modifies this`pdEntry, progUsedPage
      ensures Valid() && Abs() == FreeProgPage(old(Abs()), idx)
    {
      if idx < MAX_NUM_PROG {
        pdEntry := 0;
        progUsedPage[idx] := false;
      }
    }

    /** Fill in a fresh record, and attach it to the terminal on the screen. */
    method InitializePcb(slot: nat, page: nat)
      requires Valid() && slot < MAX_NUM_PROG
      modifies pcbs
      ensures Valid()
      ensures Abs() == old(Abs()).(pcbs := old(pcbs[..])[slot := FreshPcb(old(pcbs[slot]), slot, page, active)])
    {
      pcbs[slot] := pcbs[slot].(terminal := active, tssEsp := KStackAddr(slot));
      pcbs[slot] := pcbs[slot].(ptIdx := page);
      pcbs[slot] := pcbs[slot].(pcbIdx := slot);
    }

    /** Point a fresh record at its parent and at the parent's stack frame, if it has one. */
    method AttachParent(slot: nat, self: nat, f: Frame)
      requires Valid() && slot < MAX_NUM_PROG
      modifies pcbs
      ensures Valid()
      ensures Abs() == old(Abs()).(pcbs := old(pcbs[..])[slot :=
        if termCurr[active].Some?
        then old(pcbs[slot]).(parent := Some(self), oldEsp := f.esp, oldEbp := f.ebp, oldTssEsp := esp0)
        else old(pcbs[slot]).(parent := None)])
    {
      if termCurr[active].Some? {
        pcbs[slot] := pcbs[slot].(parent := Some(self));
        pcbs[slot] := pcbs[slot].(oldEsp := f.esp, oldEbp := f.ebp);
        pcbs[slot] := pcbs[slot].(oldTssEsp := esp0);
      } else {
        pcbs[slot] := pcbs[slot].(parent := None);
      }
    }

    /** The second half of execute: fill in the record, save the caller's registers, enter the child. */
    method EnterChild(slot: nat, page: nat, entry: int, f: Frame)
      requires Valid() && 0 <= SlotOf(f.esp) < MAX_NUM_PROG
      requires slot < MAX_NUM_PROG && page < MAX_NUM_PROG
      requires pcbUsed[slot] && progUsedPage[page] && pdEntry == PdEntry(page)
      modifies this, pcbs, termCurr
      ensures Valid() && Abs() == Launch(old(Abs()), slot, page, entry, f)
    {
      InitializePcb(slot, page);
      var self := SlotOf(f.esp);
      AttachParent(slot, self, f);
      pcbs[self] := pcbs[self].(ctx := Context(f.esp, f.ebp, RetHere));
      esp0 := KStackAddr(slot);
      termCurr[active] := Some(slot);
      cpu := Entered(slot, entry);
    }

    /** execute: returns false for the error code, true when the child was entered. */
    method ExecuteCall(image: Option<int>, f: Frame) returns (entered: bool)
      requires Valid() && 0 <= SlotOf(f.esp) < MAX_NUM_PROG
      modifies this, pcbUsed, progUsedPage, pcbs, termCurr
      ensures Valid() && Abs() == Execute(old(Abs()), image, f)
      ensures entered <==> image.Some? && FirstFree(old(progUsedPage[..])) < MAX_NUM_PROG
                           && FirstFree(old(pcbUsed[..])) < MAX_NUM_PROG
    {
      if image.None? {
        return false;
      }
      var page := AddProgPage();
      if page == -1 {
        return false;
      }
      var slot := AddPcb();
      if slot == -1 {
        return false;
      }
      assert progUsedPage[..][page := true] == progUsedPage[..] && pcbUsed[..][slot := true] == pcbUsed[..];
      EnterChild(slot, page, image.value, f);
      return true;
    }

    method HaltCall(status: int, shell: int, f: Frame)
      requires Valid() && OnSlot(Abs(), f)
      modifies this, pcbUsed, progUsedPage, pcbs, termCurr
      ensures Valid() && Abs() == Halt(old(Abs()), status, shell, f)
    {
      var curr := pcbs[SlotOf(f.esp)];
      match curr.parent
      case Some(parent) =>
        termCurr[curr.terminal] := Some(parent);
        ReleaseProgPage(curr.ptIdx);
        MapProgPage(pcbs[parent].ptIdx);
        esp0 := curr.oldTssEsp;
        pcbUsed[curr.pcbIdx] := false;
        pcbs[parent] := pcbs[parent].(returnVal := status % 0x100);
        cpu := Resumed(Context(curr.oldEsp, curr.oldEbp, RetHere));
      case None =>
        termCurr[curr.terminal] := None;
        ReleaseProgPage(curr.ptIdx);
        esp0 := curr.oldTssEsp;
        pcbUsed[curr.pcbIdx] := false;
        assert Abs() == ReleaseRoot(old(Abs()), SlotOf(f.esp));
        var _ := ExecuteCall(Some(shell), f);
    }

    /** The context switch: save each register of prev's record, load it from next's. */
    method SwitchStacks(prev: nat, next: nat, f: Frame)
      requires Valid() && prev < MAX_NUM_PROG && next < MAX_NUM_PROG
      modifies this`cpu, pcbs
      ensures Valid() && Abs() == SwitchTo(old(Abs()), prev, next, f)
    {
      pcbs[prev] := pcbs[prev].(ctx := pcbs[prev].ctx.(esp := f.esp));
      var esp := pcbs[next].ctx.esp;
      pcbs[prev] := pcbs[prev].(ctx := pcbs[prev].ctx.(ebp := f.ebp));
      pcbs[prev] := pcbs[prev].(ctx := pcbs[prev].ctx.(eip := SwitchPoint));
      var ebp := pcbs[next].ctx.ebp;
      cpu := Resumed(Context(esp, ebp, pcbs[next].ctx.eip));
    }

    /** The queue index of a process, and whether any process was met on the way to it. */
    method FindSelf(temp: nat) returns (j: nat, isProg: bool)
      requires Valid()
      ensures j == QueueIndex(termCurr[..], temp)
      ensures isProg <==> exists t :: 0 <= t <= j && t < NUM_TERMINALS && termCurr[t].Some?
    {
      isProg := false;
      j := 0;
      while j < NUM_TERMINALS
        invariant 0 <= j <= NUM_TERMINALS
        invariant isProg <==> exists t :: 0 <= t < j && termCurr[t].Some?
        invariant forall t :: 0 <= t < j ==> termCurr[t] != Some(temp)
      {
        if termCurr[j].Some? { isProg := true; }
        if termCurr[j] == Some(temp) { break; }
        j := j + 1;
      }
      QueueIndexIs(termCurr[..], temp, j);
    }

    /** The next occupied terminal round the queue. */
    method FindNext(q: nat) returns (t: nat)
      requires Valid() && q <= NUM_TERMINALS && AnyOccupied(termCurr[..])
      ensures t == NextTerminal(termCurr[..], q)
    {
      ghost var tc := termCurr[..];
      ghost var from := if q == NUM_TERMINALS then 0 else q;
      var i := q + 1;
      while termCurr[i % NUM_TERMINALS].None?
        invariant q < i < q + NUM_TERMINALS || (q == NUM_TERMINALS && i == q + NUM_TERMINALS && tc[0].Some?)
        invariant Search(tc, from, from + 1) == Search(tc, from, from + (i - q))
        decreases q + NUM_TERMINALS - i
      {
        i := i + 1;
        if i % NUM_TERMINALS == q {
          break;
        }
      }
      t := i % NUM_TERMINALS;
    }

    /** The timer interrupt: pick the next occupied terminal and switch to its process. */
    method DoHandlePit(f: Frame)
      requires Valid() && OnSlot(Abs(), f)
      modifies this, progUsedPage, pcbs
      ensures Valid() && Abs() == Tick(old(Abs()), f)
    {
      var temp: nat := SlotOf(f.esp);
      var q, isProg := FindSelf(temp);
      if !isProg {
        return;
      }
      q := FindNext(q);
      var next := termCurr[q].value;
      esp0 := pcbs[next].tssEsp;
      MapProgPage(pcbs[next].ptIdx);
      SwitchStacks(temp, next, f);
    }

    /** The process part of a terminal switch. */
    method ChangeVideoMem(terminal: nat, shell: int, f: Frame) returns (refused: bool)
      requires Valid() && 0 <= SlotOf(f.esp) < MAX_NUM_PROG && terminal < NUM_TERMINALS
      modifies this, pcbUsed, progUsedPage, pcbs, termCurr
      ensures Valid() && Abs() == SwitchTerminal(old(Abs()), terminal, shell, f)
      ensures refused <==> terminal != old(active) && Refused(old(Abs()), terminal)
    {
      if terminal == active {
        return false;
      }
      var i := 0;
      while i < MAX_NUM_PROG && pcbUsed[i]
        invariant 0 <= i <= MAX_NUM_PROG
        invariant forall j :: 0 <= j < i ==> pcbUsed[j]
      {
        i := i + 1;
      }
      FirstFreeIs(pcbUsed[..], i);
      if i == MAX_NUM_PROG && termCurr[terminal].None? {
        return true;
      }
      active := terminal;
      if termCurr[terminal].None? {
        var _ := ExecuteCall(Some(shell), f);
      }
      refused := false;
    }
  }

  /** The loop that stops at the first free entry finds what FirstFree names. */
  lemma FirstFreeIs(used: seq<bool>, i: nat)
    requires i <= |used| && (forall j :: 0 <= j < i ==> used[j]) && (i < |used| ==> !used[i])
    ensures FirstFree(used) == i
  {
  }

  lemma QueueIndexIs(tc: seq<Option<nat>>, slot: nat, j: nat)
    requires j <= |tc| && (forall t :: 0 <= t < j ==> tc[t] != Some(slot)) && (j < |tc| ==> tc[j] == Some(slot))
    ensures QueueIndex(tc, slot) == j
  {
  }
}
