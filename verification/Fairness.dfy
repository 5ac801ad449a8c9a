/** Round-robin fairness: every occupied terminal gets the processor within as many ticks as
    there are occupied terminals, whatever else happens between the ticks. */
module Fairness {
  import opened Options
  import opened ProcessState
  import opened ProcessInvariant
  import opened ProcessRuns

  /** How many places round the queue terminal t is ahead of terminal q: between 1 and the whole ring. */
  function Distance(q: nat, t: nat): int
  {
    if t > q then t - q else t + NUM_TERMINALS - q
  }

  ghost function Occupied(tc: seq<Option<nat>>): set<nat> {
    set t | 0 <= t < |tc| && tc[t].Some?
  }

  /** The terminals of a set that come up after q and no later than t. */
  ghost function Ahead(occupied: set<nat>, q: nat, t: nat): set<nat> {
    set u | u in occupied && Distance(q, u) <= Distance(q, t)
  }

  /** A tick picks the nearest occupied terminal ahead of its own. */
  lemma NextIsNearest(tc: seq<Option<nat>>, q: nat, u: nat)
    requires |tc| == NUM_TERMINALS && q < NUM_TERMINALS && u in Occupied(tc)
    ensures Distance(q, NextTerminal(tc, q)) <= Distance(q, u)
  {
    var k := Search(tc, q, q + 1);
    var j := q + Distance(q, u);
    assert j % NUM_TERMINALS == u;
    assert k <= j;
    assert Distance(q, k % NUM_TERMINALS) == k - q;
  }

  /** A tick that does not pick t leaves one terminal fewer ahead of it. */
  lemma AheadShrinks(tc: seq<Option<nat>>, q: nat, t: nat)
    requires |tc| == NUM_TERMINALS && q < NUM_TERMINALS && t in Occupied(tc) && tc[q].Some?
    requires NextTerminal(tc, q) != t
    ensures var occ := Occupied(tc); var n := NextTerminal(tc, q);
      n in Ahead(occ, q, t) && Ahead(occ, n, t) == Ahead(occ, q, t) - {n}
  {
    var n := NextTerminal(tc, q);
    forall u | u in Occupied(tc) ensures Distance(q, n) <= Distance(q, u) {
      NextIsNearest(tc, q, u);
    }
  }

  /** The terminal of the running process. */
  ghost function RunningTerminal(s: State): nat
    requires WellSized(s) && 0 <= Running(s) < MAX_NUM_PROG
  {
    s.pcbs[Running(s)].terminal
  }

  lemma ExecuteStays(s: State, ch: seq<seq<nat>>, ev: Event)
    requires InvWith(s, ch) && CanStep(s, ev) && Guard(s, ev) && ev.ExecuteCall?
    ensures var s' := Step(s, ev);
      WellSized(s') && 0 <= Running(s') < MAX_NUM_PROG && RunningTerminal(s') == RunningTerminal(s)
  {
    TrapFindsRunning(s, ch, ev.frame);
    ExecuteCases(s, ev.image, ev.frame);
  }

  lemma HaltStays(s: State, ch: seq<seq<nat>>, ev: Event)
    requires InvWith(s, ch) && CanStep(s, ev) && Guard(s, ev) && ev.HaltCall?
    ensures var s' := Step(s, ev);
      WellSized(s') && 0 <= Running(s') < MAX_NUM_PROG && RunningTerminal(s') == RunningTerminal(s)
  {
    TrapFindsRunning(s, ch, ev.frame);
    if s.pcbs[Running(s)].parent.Some? {
      ParentIsOwn(s, ch, Running(s));
    } else {
      ReleaseRootReady(s, ch, ev.frame);
      ExecuteCases(ReleaseRoot(s, Running(s)), Some(ev.shell), ev.frame);
    }
  }

  lemma SwitchStays(s: State, ch: seq<seq<nat>>, ev: Event)
    requires InvWith(s, ch) && CanStep(s, ev) && ev.TerminalKey?
    requires Occupied(Step(s, ev).termCurr) == Occupied(s.termCurr)
    ensures Running(Step(s, ev)) == Running(s) && Step(s, ev).pcbs == s.pcbs
  {
    TrapFindsRunning(s, ch, ev.frame);
    var t := ev.terminal;
    assert Step(s, ev).termCurr[t].Some? ==> t in Occupied(Step(s, ev).termCurr);
    ExecuteCases(s.(active := t), Some(ev.shell), ev.frame);
  }

  /** Only a tick moves the processor between terminals that already have a process. */
  lemma OnlyTicksMove(s: State, ev: Event)
    requires Inv(s) && CanStep(s, ev) && Guard(s, ev) && !ev.TimerTick?
    requires Occupied(Step(s, ev).termCurr) == Occupied(s.termCurr)
    ensures Inv(Step(s, ev)) && RunningTerminal(Step(s, ev)) == RunningTerminal(s)
  {
    var ch :| InvWith(s, ch);
    StepKeeps(s, ev);
    match ev
    case ExecuteCall(_, _) => ExecuteStays(s, ch, ev);
    case HaltCall(_, _, _) => HaltStays(s, ch, ev);
    case TerminalKey(_, _, _) => SwitchStays(s, ch, ev);
  }

  lemma TickMoves(s: State, f: Frame)
    requires Inv(s) && CanStep(s, TimerTick(f))
    ensures Inv(Tick(s, f)) && Tick(s, f).termCurr == s.termCurr
    ensures 0 <= Running(s) < MAX_NUM_PROG && RunningTerminal(s) < NUM_TERMINALS
    ensures s.termCurr[RunningTerminal(s)].Some?
    ensures RunningTerminal(Tick(s, f)) == NextTerminal(s.termCurr, RunningTerminal(s))
  {
    var ch :| InvWith(s, ch);
    TickKeeps(s, ch, f);
    QueueEntryIsOwn(s, ch, NextTerminal(s.termCurr, RunningTerminal(s)));
  }

  /** A step chooses t, or brings the processor one terminal nearer to it if it is a tick, and
      leaves the distance alone if it is not. */
  lemma StepAdvances(s: State, ev: Event, t: nat)
    requires Inv(s) && CanStep(s, ev) && Guard(s, ev) && t in Occupied(s.termCurr)
    requires Occupied(Step(s, ev).termCurr) == Occupied(s.termCurr)
    ensures Inv(Step(s, ev))
    ensures !ev.TimerTick? ==>
      Ahead(Occupied(s.termCurr), RunningTerminal(Step(s, ev)), t) == Ahead(Occupied(s.termCurr), RunningTerminal(s), t)
    ensures ev.TimerTick? ==>
      var n := RunningTerminal(Step(s, ev)); var occ := Occupied(s.termCurr);
      n == t || |Ahead(occ, n, t)| + 1 == |Ahead(occ, RunningTerminal(s), t)|
  {
    if ev.TimerTick? {
      TickMoves(s, ev.frame);
      if NextTerminal(s.termCurr, RunningTerminal(s)) != t {
        AheadShrinks(s.termCurr, RunningTerminal(s), t);
      }
    } else {
      OnlyTicksMove(s, ev);
    }
  }

  /** The number of ticks among the events from i on, up to k. */
  ghost function Ticks(evs: seq<Event>, i: nat, k: nat): nat
    requires i <= k <= |evs|
    decreases k - i
  {
    if i == k then 0 else Ticks(evs, i + 1, k) + if evs[i].TimerTick? then 1 else 0
  }

  /** The i-th state has the same terminals occupied as the first. */
  ghost predicate SameTerminals(ss: seq<State>, i: nat)
    requires i < |ss|
  {
    Occupied(ss[i].termCurr) == Occupied(ss[0].termCurr)
  }

  ghost predicate OpensNoTerminal(ss: seq<State>) {
    forall i :: 0 <= i < |ss| ==> SameTerminals(ss, i)
  }

  /** A tick among the events from i up to k hands the processor to terminal t. */
  ghost predicate ChosenBetween(ss: seq<State>, evs: seq<Event>, i: nat, k: nat, t: nat)
    requires IsRun(ss, evs)
  {
    exists j :: i <= j < k && j < |evs| && evs[j].TimerTick? && WellSized(ss[j + 1])
      && 0 <= Running(ss[j + 1]) < MAX_NUM_PROG && RunningTerminal(ss[j + 1]) == t
  }

  lemma {:induction false} ChosenOrFewTicks(ss: seq<State>, evs: seq<Event>, i: nat, k: nat, t: nat)
    requires IsRun(ss, evs) && Inv(ss[0]) && i <= k <= |evs|
    requires OpensNoTerminal(ss)
    requires t in Occupied(ss[0].termCurr)
    ensures Inv(ss[i])
    ensures ChosenBetween(ss, evs, i, k, t) ||
      Ticks(evs, i, k) < |Ahead(Occupied(ss[0].termCurr), RunningTerminal(ss[i]), t)|
    decreases k - i
  {
    RunKeepsInv(ss, evs, i);
    assert t in Ahead(Occupied(ss[0].termCurr), RunningTerminal(ss[i]), t);
    if i < k {
      ChosenOrFewTicks(ss, evs, i + 1, k, t);
      assert ChosenBetween(ss, evs, i + 1, k, t) ==> ChosenBetween(ss, evs, i, k, t);
      assert SameTerminals(ss, i) && SameTerminals(ss, i + 1);
      StepAdvances(ss[i], evs[i], t);
    }
  }

  /** In a run that opens no new terminal, as many ticks as there are occupied terminals choose
      every one of them, wherever the processor was at the start. */
  lemma EveryTerminalIsChosen(ss: seq<State>, evs: seq<Event>, i: nat, k: nat, t: nat)
    requires IsRun(ss, evs) && Inv(ss[0]) && i <= k <= |evs|
    requires OpensNoTerminal(ss)
    requires t in Occupied(ss[0].termCurr)
    requires Ticks(evs, i, k) >= |Occupied(ss[0].termCurr)|
    ensures ChosenBetween(ss, evs, i, k, t)
  {
    ChosenOrFewTicks(ss, evs, i, k, t);
    var occ := Occupied(ss[0].termCurr);
    SubsetSize(Ahead(occ, RunningTerminal(ss[i]), t), occ);
  }

  lemma {:induction false} SubsetSize(a: set<nat>, b: set<nat>)
    requires a <= b
    ensures |a| <= |b|
  {
    if a != {} {
      var x :| x in a;
      SubsetSize(a - {x}, b - {x});
    }
  }
}
