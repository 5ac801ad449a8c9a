/** The lines that are typed, and how they reach the reader. */
module LineRuns {
  import S = Screen
  import ScreenRuns
  import opened LineEditor
  import opened Sequences
  import Runs

  function PaddedLine(line: string): (b: string)
    requires |line| <= BUFFER_SIZE
    ensures |b| == BUFFER_SIZE
  {
    Padded(line, BUFFER_SIZE, '\0')
  }

  ghost predicate IsLine(line: string) {
    |line| <= BUFFER_SIZE && '\0' !in line
  }

  /** What a key does to the line being typed. */
  function Edited(line: string, key: char, ctrl: bool, fn: bool): string {
    match ActionOf(key, ctrl, fn, |line|)
    case Backspace => if line == [] then [] else line[..|line| - 1]
    case Enter => []
    case ClearScreen => []
    case Type => line + [key]
    case Ignore => line
  }

  /** What an event does to the line being typed on terminal t. */
  function LineAfter(e: State, ev: Event, t: nat, line: string): string {
    match ev
    case Key(key, ctrl, fn) => if e.screen.active == t then Edited(line, key, ctrl, fn) else line
    case ClearBuffer(u) => if u == t then [] else line
    case _ => line
  }

  /** The buffer of terminal t holds the line. */
  ghost predicate Holds(e: State, t: nat, line: string)
    requires Sized(e) && t < NUM_TERMINALS
  {
    IsLine(line) && e.pos[t] == |line| && Buffer(e.input, t) == PaddedLine(line)
  }

  /** A backspace on an empty line, next to a full line on the terminal before. */
  predicate Spills(e: State, ev: Event, t: nat)
    requires Ok(e)
  {
    && ev.Key? && ev.key == BACKSPACE
    && e.screen.active == t + 1 < NUM_TERMINALS && e.pos[t + 1] == 0
    && t < NUM_TERMINALS && e.pos[t] == BUFFER_SIZE
  }

  // ----- Buffers -----

  lemma UpdatedBuffer(input: seq<char>, u: nat, p: int, c: char, t: nat)
    requires |input| == 1 + NUM_TERMINALS * BUFFER_SIZE && t < NUM_TERMINALS && u < NUM_TERMINALS
    requires -1 <= p < BUFFER_SIZE
    ensures var b, b' := Buffer(input, t), Buffer(input[Cell(u, p) := c], t);
      && (u == t && p >= 0 ==> b' == b[p := c])
      && (u == t + 1 && p == -1 ==> b' == b[BUFFER_SIZE - 1 := c])
      && (u != t && !(u == t + 1 && p == -1) ==> b' == b)
      && (u == t && p == -1 ==> b' == b)
  {
  }

  lemma ZeroedBuffer(input: seq<char>, u: nat, t: nat)
    requires |input| == 1 + NUM_TERMINALS * BUFFER_SIZE && t < NUM_TERMINALS && u < NUM_TERMINALS
    ensures u == t ==> Buffer(Zeroed(input, u), t) == PaddedLine([])
    ensures u != t ==> Buffer(Zeroed(input, u), t) == Buffer(input, t)
  {
    if u != t {
      assert Cell(u, BUFFER_SIZE) <= Cell(t, 0) || Cell(t, BUFFER_SIZE) <= Cell(u, 0);
      assert forall i :: 0 <= i < BUFFER_SIZE ==> Buffer(Zeroed(input, u), t)[i] == Zeroed(input, u)[Cell(t, i)];
    }
  }

  lemma PaddedEdits(line: string, key: char)
    requires IsLine(line)
    ensures |line| < BUFFER_SIZE ==> PaddedLine(line)[|line| := key] == PaddedLine(line + [key])
    ensures |line| > 0 ==> PaddedLine(line)[|line| - 1 := '\0'] == PaddedLine(line[..|line| - 1])
  {
    if |line| > 0 {
      var b, front := PaddedLine(line)[|line| - 1 := '\0'], line[..|line| - 1];
      assert forall i :: 0 <= i < |front| ==> b[i] == front[i];
      assert forall i :: |front| <= i < BUFFER_SIZE ==> b[i] == '\0' == PaddedLine(front)[i];
    }
  }

  /** Writing a zero in the last cell keeps a padded line exactly when it is not full. */
  lemma LastCell(line: string)
    requires IsLine(line)
    ensures PaddedLine(line)[BUFFER_SIZE - 1 := '\0'] == PaddedLine(line) <==> |line| < BUFFER_SIZE
  {
    if |line| == BUFFER_SIZE {
      assert line[BUFFER_SIZE - 1] in line;
      assert PaddedLine(line)[BUFFER_SIZE - 1] != '\0';
    } else {
      assert PaddedLine(line)[BUFFER_SIZE - 1] == '\0';
    }
  }

  // ----- Steps -----

  /** A key on the terminal's own keyboard edits its line. */
  lemma KeyEdits(e: State, key: char, ctrl: bool, fn: bool, line: string)
    requires Ok(e) && Ok(Step(e, Key(key, ctrl, fn))) && Holds(e, e.screen.active, line)
    ensures Holds(Step(e, Key(key, ctrl, fn)), e.screen.active, Edited(line, key, ctrl, fn))
  {
    var t := e.screen.active;
    PaddedEdits(line, key);
    ZeroedBuffer(e.input, t, t);
    match ActionOf(key, ctrl, fn, |line|)
    case Backspace => UpdatedBuffer(e.input, t, |line| - 1, '\0', t);
    case Type => UpdatedBuffer(e.input, t, |line|, key, t);
    case _ =>
  }

  /** A key on another terminal leaves the line alone unless it spills. */
  lemma KeyElsewhere(e: State, key: char, ctrl: bool, fn: bool, t: nat, line: string)
    requires Ok(e) && Ok(Step(e, Key(key, ctrl, fn))) && t < NUM_TERMINALS && t != e.screen.active && Holds(e, t, line)
    ensures Holds(Step(e, Key(key, ctrl, fn)), t, line) <==> !Spills(e, Key(key, ctrl, fn), t)
  {
    var u := e.screen.active;
    ZeroedBuffer(e.input, u, t);
    LastCell(line);
    match ActionOf(key, ctrl, fn, e.pos[u])
    case Backspace => UpdatedBuffer(e.input, u, e.pos[u] - 1, '\0', t);
    case Type => UpdatedBuffer(e.input, u, e.pos[u], key, t);
    case _ =>
  }

  /** The buffer of a terminal holds the line as edited, unless a backspace on the empty line of the
      next terminal erases its last character. */
  lemma StepHoldsLine(e: State, ev: Event, t: nat, line: string)
    requires Ok(e) && CanStep(ev) && t < NUM_TERMINALS && Holds(e, t, line)
    ensures Ok(Step(e, ev))
    ensures Holds(Step(e, ev), t, LineAfter(e, ev, t, line)) <==> !Spills(e, ev, t)
  {
    StepKeepsOk(e, ev);
    match ev
    case Key(key, ctrl, fn) =>
      if t == e.screen.active { KeyEdits(e, key, ctrl, fn, line); }
      else { KeyElsewhere(e, key, ctrl, fn, t, line); }
    case ClearBuffer(u) => ZeroedBuffer(e.input, u, t);
    case _ =>
  }

  // ----- Runs -----

  /** From a state in order the event makes its step. */
  ghost predicate Next(e: State, ev: Event, e': State) {
    Ok(e) ==> CanStep(ev) && e' == Step(e, ev)
  }

  ghost predicate Stepped(es: seq<State>, evs: seq<Event>, i: nat)
    requires i < |evs| && |es| == |evs| + 1
  {
    Runs.Stepped(Next, es, evs, i)
  }

  ghost predicate IsRun(es: seq<State>, evs: seq<Event>) {
    Runs.IsRun(Next, es, evs)
  }

  /** No run of key presses, output and switches moves a cursor off the screen, lets a line outgrow its
      buffer, or makes the display differ from the active terminal's page. */
  lemma {:induction false} RunKeepsOk(es: seq<State>, evs: seq<Event>, n: nat)
    requires IsRun(es, evs) && Ok(es[0]) && ScreenRuns.Mirror(es[0].screen) && n < |es|
    ensures Ok(es[n]) && ScreenRuns.Mirror(es[n].screen)
  {
    if n > 0 {
      RunKeepsOk(es, evs, n - 1);
      assert Stepped(es, evs, n - 1);
      StepKeepsOk(es[n - 1], evs[n - 1]);
      var echo := Echo(es[n - 1], evs[n - 1]);
      if echo != [] { ScreenRuns.StepKeepsMirror(es[n - 1].screen, echo[0]); }
    }
  }

  /** What the i-th event of a run does to the screen. */
  ghost function EchoAt(es: seq<State>, evs: seq<Event>, i: nat): seq<S.Event>
    requires i < |evs| && |es| == |evs| + 1
  {
    if Ok(es[i]) && CanStep(evs[i]) then Echo(es[i], evs[i]) else []
  }

  /** What a run does to the screen is a run of the screen. */
  lemma ScreenRunOf(es: seq<State>, evs: seq<Event>) returns (ss: seq<S.State>, xs: seq<S.Event>)
    requires IsRun(es, evs) && Ok(es[0]) && ScreenRuns.Mirror(es[0].screen)
    ensures ScreenRuns.IsRun(ss, xs) && ss[0] == es[0].screen && ss[|xs|] == es[|evs|].screen
    ensures xs == Concat(seq(|evs|, i requires 0 <= i < |evs| => EchoAt(es, evs, i)))
  {
    var screens := seq(|es|, i requires 0 <= i < |es| => es[i].screen);
    var parts := seq(|evs|, i requires 0 <= i < |evs| => EchoAt(es, evs, i));
    forall i | 0 <= i < |evs|
      ensures Runs.PartStepped(ScreenRuns.Next, screens, parts, i)
    {
      RunKeepsOk(es, evs, i);
      assert Stepped(es, evs, i);
    }
    ss, xs := Runs.PartRuns(ScreenRuns.Next, screens, parts);
  }

  /** The line of terminal t after the first n events. */
  ghost function LineAt(es: seq<State>, evs: seq<Event>, t: nat, line: string, n: nat): string
    requires IsRun(es, evs) && n <= |evs|
  {
    if n == 0 then line
    else LineAfter(es[n - 1], evs[n - 1], t, LineAt(es, evs, t, line, n - 1))
  }

  ghost predicate NeverSpills(es: seq<State>, evs: seq<Event>, t: nat, n: nat)
    requires IsRun(es, evs) && n <= |evs|
  {
    forall i :: 0 <= i < n ==> SpillFree(es, evs, t, i)
  }

  ghost predicate SpillFree(es: seq<State>, evs: seq<Event>, t: nat, i: nat)
    requires i < |evs| && |es| == |evs| + 1
  {
    Ok(es[i]) ==> !Spills(es[i], evs[i], t)
  }

  /** Whatever happens on the screen and on other terminals, a buffer holds what its terminal's keys make. */
  lemma {:induction false} RunHoldsLine(es: seq<State>, evs: seq<Event>, t: nat, line: string, n: nat)
    requires IsRun(es, evs) && n <= |evs| && t < NUM_TERMINALS && Ok(es[0]) && Holds(es[0], t, line)
    requires NeverSpills(es, evs, t, n)
    ensures Ok(es[n]) && Holds(es[n], t, LineAt(es, evs, t, line, n))
  {
    if n > 0 {
      RunHoldsLine(es, evs, t, line, n - 1);
      assert Stepped(es, evs, n - 1) && SpillFree(es, evs, t, n - 1);
      StepHoldsLine(es[n - 1], evs[n - 1], t, LineAt(es, evs, t, line, n - 1));
    }
  }

  // ----- From Enter to the reader -----

  predicate IsEnter(ev: Event) {
    ev.Key? && (ev.key == '\n' || ev.key == '\r')
  }

  /** The text up to the first zero, at most n characters of it. */
  function UpToZero(b: string, n: nat): (r: string) {
    if n == 0 || b == [] || b[0] == '\0' then [] else [b[0]] + UpToZero(b[1..], n - 1)
  }

  /** What a read for n bytes returns of the enter buffer: one byte more than n if the line is as long. */
  function ReadResult(enter: string, n: nat): string {
    UpToZero(enter, AtMost(n, BUFFER_SIZE)) + "\n"
  }

  lemma {:induction false} UpToZeroPadded(line: string, k: nat, n: nat)
    requires '\0' !in line
    ensures UpToZero(line + Repeat('\0', k), n) == line[..AtMost(|line|, n)]
  {
    if line != [] && n > 0 {
      var b := line + Repeat('\0', k);
      assert b[1..] == line[1..] + Repeat('\0', k);
      UpToZeroPadded(line[1..], k, n - 1);
      assert b[0] == line[0] && line[0] in line;
    } else if line == [] {
      assert line + Repeat('\0', k) == Repeat('\0', k);
    }
  }

  ghost predicate NoEnter(evs: seq<Event>, start: nat, end: nat) {
    forall i :: start <= i < end && i < |evs| ==> !IsEnter(evs[i])
  }

  ghost predicate NoRead(evs: seq<Event>, t: nat, start: nat, end: nat) {
    forall i :: start <= i < end && i < |evs| ==> evs[i] != ReadLine(t)
  }

  lemma {:induction false} EnterBufferWaits(es: seq<State>, evs: seq<Event>, start: nat, end: nat)
    requires IsRun(es, evs) && start <= end <= |evs| && Ok(es[start]) && NoEnter(evs, start, end)
    ensures Ok(es[end]) && es[end].enter == es[start].enter
    decreases end
  {
    if start < end {
      EnterBufferWaits(es, evs, start, end - 1);
      assert Stepped(es, evs, end - 1) && !IsEnter(evs[end - 1]);
      StepKeepsOk(es[end - 1], evs[end - 1]);
    }
  }

  lemma {:induction false} EnterFlagWaits(es: seq<State>, evs: seq<Event>, t: nat, start: nat, end: nat)
    requires IsRun(es, evs) && start <= end <= |evs| && t < NUM_TERMINALS && Ok(es[start]) && NoRead(evs, t, start, end)
    requires es[start].flags[t]
    ensures Ok(es[end]) && es[end].flags[t]
    decreases end
  {
    if start < end {
      EnterFlagWaits(es, evs, t, start, end - 1);
      assert Stepped(es, evs, end - 1) && evs[end - 1] != ReadLine(t);
      StepKeepsOk(es[end - 1], evs[end - 1]);
    }
  }

  /** A terminal is told to read by its own Enter, until it reads. */
  lemma FlagStep(e: State, ev: Event, t: nat)
    requires Ok(e) && CanStep(ev) && t < NUM_TERMINALS
    ensures Ok(Step(e, ev))
    ensures Step(e, ev).flags[t] <==> (IsEnter(ev) && e.screen.active == t) || (e.flags[t] && ev != ReadLine(t))
  {
    StepKeepsOk(e, ev);
  }

  /** Event i is an Enter on terminal t, which has not read since, up to event n. */
  ghost predicate Unread(es: seq<State>, evs: seq<Event>, t: nat, i: nat, n: nat)
    requires |es| == |evs| + 1
  {
    i < n <= |evs| && IsEnter(evs[i]) && es[i].screen.active == t && NoRead(evs, t, i + 1, n)
  }

  /** On every run a terminal is told to read exactly when an Enter of its own has not been read yet. */
  lemma {:induction false} FlagMeansUnread(es: seq<State>, evs: seq<Event>, t: nat, n: nat)
    requires IsRun(es, evs) && Ok(es[0]) && n <= |evs| && t < NUM_TERMINALS && !es[0].flags[t]
    ensures Ok(es[n]) && (es[n].flags[t] <==> exists i :: 0 <= i < n && Unread(es, evs, t, i, n))
  {
    if n > 0 {
      var m := n - 1;
      FlagMeansUnread(es, evs, t, m);
      assert Stepped(es, evs, m);
      FlagStep(es[m], evs[m], t);
      if es[n].flags[t] {
        if IsEnter(evs[m]) && es[m].screen.active == t {
          assert Unread(es, evs, t, m, n);
        } else {
          var i :| 0 <= i < m && Unread(es, evs, t, i, m);
          assert Unread(es, evs, t, i, n);
        }
      }
      if i :| 0 <= i < n && Unread(es, evs, t, i, n) {
        assert evs[m] == ReadLine(t) ==> i == m;
        if i < m { assert Unread(es, evs, t, i, m); }
      }
    }
  }

  lemma EnterCopies(e: State, ev: Event, line: string)
    requires Ok(e) && IsEnter(ev) && Holds(e, e.screen.active, line)
    ensures Ok(Step(e, ev)) && Step(e, ev).enter == PaddedLine(line) && Step(e, ev).flags[e.screen.active]
  {
    StepKeepsOk(e, ev);
  }

  /** A line cut to n characters. */
  function CutTo(line: string, n: nat): string {
    line[..AtMost(|line|, n)]
  }

  /** A read returns the line cut to the size asked for and ended by a newline. */
  lemma ReadResultIs(line: string, n: nat)
    requires IsLine(line)
    ensures ReadResult(PaddedLine(line), n) == CutTo(line, n) + "\n"
  {
    UpToZeroPadded(line, BUFFER_SIZE - |line|, AtMost(n, BUFFER_SIZE));
  }

  /** An Enter puts the line of its terminal into the enter buffer. */
  lemma EntersOwn(es: seq<State>, evs: seq<Event>, t: nat, line: string, i: nat)
    requires IsRun(es, evs) && i < |evs| && t < NUM_TERMINALS
    requires Ok(es[0]) && Holds(es[0], t, line) && NeverSpills(es, evs, t, i)
    requires IsEnter(evs[i]) && es[i].screen.active == t
    ensures IsLine(LineAt(es, evs, t, line, i))
    ensures Ok(es[i + 1]) && es[i + 1].flags[t] && es[i + 1].enter == PaddedLine(LineAt(es, evs, t, line, i))
  {
    RunHoldsLine(es, evs, t, line, i);
    assert Stepped(es, evs, i);
    EnterCopies(es[i], evs[i], LineAt(es, evs, t, line, i));
  }

  /** The line typed on a terminal up to an Enter is what its next read returns, whatever else happens in
      between short of another Enter. */
  lemma EnteredLineIsRead(es: seq<State>, evs: seq<Event>, t: nat, line: string, i: nat, j: nat, n: nat)
    requires IsRun(es, evs) && i < j <= |evs| && t < NUM_TERMINALS
    requires Ok(es[0]) && Holds(es[0], t, line) && NeverSpills(es, evs, t, i)
    requires IsEnter(evs[i]) && es[i].screen.active == t && NoEnter(evs, i + 1, j) && NoRead(evs, t, i + 1, j)
    ensures Ok(es[j]) && es[j].flags[t]
    ensures var entered := LineAt(es, evs, t, line, i);
      ReadResult(es[j].enter, n) == CutTo(entered, n) + "\n"
  {
    EntersOwn(es, evs, t, line, i);
    EnterFlagWaits(es, evs, t, i + 1, j);
    LastEnterIsRead(es, evs, t, line, i, j, n);
  }

  /** A read returns more bytes than asked for exactly when the line is as long as that. */
  lemma ReadOverruns(line: string, n: nat)
    requires IsLine(line)
    ensures |ReadResult(PaddedLine(line), n)| > n <==> |line| >= n
  {
    ReadResultIs(line, n);
  }

  /** All terminals share the enter buffer: if terminal t has entered a line and terminal u enters another
      one before t has read, t is still told to read, but reads u's line. It reads its own line exactly
      when the two agree as far as it reads. */
  lemma LaterEnterWins(es: seq<State>, evs: seq<Event>, t: nat, lineT: string, i0: nat,
                       u: nat, lineU: string, i: nat, j: nat, n: nat)
    requires IsRun(es, evs) && i0 < i < j <= |evs| && t < NUM_TERMINALS && u < NUM_TERMINALS && u != t
    requires Ok(es[0]) && Holds(es[0], t, lineT) && Holds(es[0], u, lineU)
    requires NeverSpills(es, evs, t, i0) && NeverSpills(es, evs, u, i)
    requires IsEnter(evs[i0]) && es[i0].screen.active == t && NoRead(evs, t, i0 + 1, j)
    requires IsEnter(evs[i]) && es[i].screen.active == u && NoEnter(evs, i + 1, j)
    ensures Ok(es[j]) && es[j].flags[t]
    ensures var own, other := LineAt(es, evs, t, lineT, i0), LineAt(es, evs, u, lineU, i);
      && ReadResult(es[j].enter, n) == CutTo(other, n) + "\n"
      && (ReadResult(es[j].enter, n) == CutTo(own, n) + "\n" <==> CutTo(own, n) == CutTo(other, n))
  {
    EntersOwn(es, evs, t, lineT, i0);
    EnterFlagWaits(es, evs, t, i0 + 1, j);
    LastEnterIsRead(es, evs, u, lineU, i, j, n);
    SameEnding(CutTo(LineAt(es, evs, t, lineT, i0), n), CutTo(LineAt(es, evs, u, lineU, i), n));
  }

  /** Whoever reads, reads the line entered last. */
  lemma LastEnterIsRead(es: seq<State>, evs: seq<Event>, u: nat, line: string, i: nat, j: nat, n: nat)
    requires IsRun(es, evs) && i < j <= |evs| && u < NUM_TERMINALS
    requires Ok(es[0]) && Holds(es[0], u, line) && NeverSpills(es, evs, u, i)
    requires IsEnter(evs[i]) && es[i].screen.active == u && NoEnter(evs, i + 1, j)
    ensures Ok(es[j]) && ReadResult(es[j].enter, n) == CutTo(LineAt(es, evs, u, line, i), n) + "\n"
  {
    EntersOwn(es, evs, u, line, i);
    EnterBufferWaits(es, evs, i + 1, j);
    ReadResultIs(LineAt(es, evs, u, line, i), n);
  }

  lemma SameEnding(a: string, b: string)
    ensures a + "\n" == b + "\n" <==> a == b
  {
    assert (a + "\n")[..|a|] == a && (b + "\n")[..|b|] == b;
  }

  // ----- Runs on which a line is lost -----

  /** Terminal 0 is active and n times x has been typed on it, and nothing on terminal 1. */
  ghost predicate TypedX(e: State, n: nat) {
    n <= BUFFER_SIZE && Ok(e) && e.screen.active == 0 && Holds(e, 0, Repeat('x', n)) && Holds(e, 1, [])
  }

  /** One more x on terminal 0. */
  lemma TypingOne(e: State, n: nat)
    requires TypedX(e, n) && n < BUFFER_SIZE
    ensures TypedX(Step(e, Key('x', false, false)), n + 1)
  {
    var ev := Key('x', false, false);
    StepHoldsLine(e, ev, 0, Repeat('x', n));
    StepHoldsLine(e, ev, 1, []);
    assert Repeat('x', n) + ['x'] == Repeat('x', n + 1);
  }

  /** Typing x n times on terminal 0. */
  lemma {:induction false} TypingOften(e: State, n: nat) returns (e': State)
    requires TypedX(e, 0) && n <= BUFFER_SIZE
    ensures TypedX(e', n) && Runs.Reaches(Next, e, e')
  {
    if n == 0 {
      Runs.ReachesSelf<State, Event>(Next, e);
      e' := e;
    } else {
      var p := TypingOften(e, n - 1);
      TypingOne(p, n - 1);
      e' := Step(p, Key('x', false, false));
      Runs.ReachesNext(Next, e, p, Key('x', false, false), e');
    }
  }

  /** Lines are damaged: type 128 characters on terminal 0, switch to terminal 1 and press backspace. */
  lemma LineIsDamagedOnRun(e: State) returns (e': State)
    requires TypedX(e, 0)
    ensures Ok(e') && Runs.Reaches(Next, e, e') && Holds(e', 0, Repeat('x', BUFFER_SIZE))
    ensures Spills(e', Key(BACKSPACE, false, false), 0)
    ensures Ok(Step(e', Key(BACKSPACE, false, false)))
    ensures !Holds(Step(e', Key(BACKSPACE, false, false)), 0, Repeat('x', BUFFER_SIZE))
  {
    var line := Repeat('x', BUFFER_SIZE);
    var p := TypingOften(e, BUFFER_SIZE);
    Runs.ReachesNext(Next, e, p, Switch(1), Step(p, Switch(1)));
    StepHoldsLine(p, Switch(1), 0, line);
    StepHoldsLine(p, Switch(1), 1, []);
    e' := Step(p, Switch(1));
    StepHoldsLine(e', Key(BACKSPACE, false, false), 0, line);
  }

  /** Enter a line on terminal 0, switch, and enter an empty line on terminal 1. */
  ghost function TwoEnters(e: State): (e': State)
    requires Ok(e)
  {
    var enter := Key('\n', false, false);
    StepKeepsOk(e, enter);
    StepKeepsOk(Step(e, enter), Switch(1));
    Step(Step(Step(e, enter), Switch(1)), enter)
  }

  lemma TwoEntersLose(e: State)
    requires TypedX(e, 1)
    ensures Ok(TwoEnters(e)) && TwoEnters(e).flags[0] && TwoEnters(e).enter == PaddedLine([])
  {
    var enter := Key('\n', false, false);
    EnterCopies(e, enter, Repeat('x', 1));
    StepHoldsLine(e, enter, 1, []);
    var e2 := Step(e, enter);
    StepHoldsLine(e2, Switch(1), 1, []);
    var e3 := Step(e2, Switch(1));
    EnterCopies(e3, enter, []);
  }

  lemma TwoEntersReached(e: State, e1: State)
    requires Runs.Reaches(Next, e, e1) && Ok(e1)
    ensures Runs.Reaches(Next, e, TwoEnters(e1))
  {
    var enter := Key('\n', false, false);
    var e2 := Step(e1, enter);
    StepKeepsOk(e1, enter);
    StepKeepsOk(e2, Switch(1));
    Runs.ReachesNext(Next, e, e1, enter, e2);
    Runs.ReachesNext(Next, e, e2, Switch(1), Step(e2, Switch(1)));
    Runs.ReachesNext(Next, e, Step(e2, Switch(1)), enter, TwoEnters(e1));
  }

  /** Lines are lost: type and enter a line on terminal 0, and enter an empty line on terminal 1 before a
      process of terminal 0 reads. */
  lemma LineIsLostOnRun(e: State, n: nat) returns (e': State)
    requires TypedX(e, 0) && n > 0
    ensures Ok(e') && Runs.Reaches(Next, e, e') && e'.flags[0] && ReadResult(e'.enter, n) == "\n"
    ensures ReadResult(PaddedLine("x"), n) == "x\n"
  {
    var e1 := TypingOften(e, 1);
    TwoEntersLose(e1);
    TwoEntersReached(e, e1);
    e' := TwoEnters(e1);
    ReadResultIs([], n);
    ReadResultIs("x", n);
  }
}
