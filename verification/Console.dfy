/** The terminal switch as the source has it: one function over the process tables and the screen. */
module ConsoleCode {
  import P = ProcessState
  import S = Screen
  import opened KernelCode
  import opened ScreenCode

  /** Refuse, or make another terminal the active one of both parts, copy its page to the display, and
      start a shell if it has no process. */
  method ChangeVideoMem(kernel: Kernel, display: Display, oldTerm: nat, newTerm: nat, shell: int, f: P.Frame)
    requires kernel.Valid() && display.Valid() && oldTerm == kernel.active == display.active
    requires 0 <= P.SlotOf(f.esp) < P.MAX_NUM_PROG && newTerm < P.NUM_TERMINALS
    modifies kernel, kernel.pcbUsed, kernel.progUsedPage, kernel.pcbs, kernel.termCurr
    modifies display, display.mem
    ensures kernel.Valid() && display.Valid() && kernel.active == display.active
    ensures kernel.Abs() == P.SwitchTerminal(old(kernel.Abs()), newTerm, shell, f)
    ensures display.Abs() ==
      if newTerm != oldTerm && P.Refused(old(kernel.Abs()), newTerm) then old(display.Abs())
      else S.StepSwitch(old(display.Abs()), newTerm)
  {
    var refused := kernel.ChangeVideoMem(newTerm, shell, f);
    display.ChangeVideoMem(oldTerm, newTerm, refused);
    SwitchedActive(old(kernel.Abs()), newTerm, shell, f);
  }

  lemma SwitchedActive(s: P.State, t: nat, shell: int, f: P.Frame)
    requires P.WellSized(s) && t < P.NUM_TERMINALS && 0 <= P.SlotOf(f.esp) < P.MAX_NUM_PROG
    ensures P.SwitchTerminal(s, t, shell, f).active == if t != s.active && P.Refused(s, t) then s.active else t
  {
  }
}
