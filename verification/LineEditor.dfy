/** The keyboard line editor: one input buffer for each terminal, one enter buffer for all of them, and
    the echo on the screen. */
module LineEditor {
  import S = Screen
  import ScreenRuns

  const BUFFER_SIZE := 128
  const BACKSPACE := '\U{08}'
  const NUM_TERMINALS := S.NUM_TERMINALS

  /** The input buffers lie one after the other; cell 0 of `input` is the byte in memory before them. */
  datatype State = State(screen: S.State, input: seq<char>, pos: seq<int>, enter: seq<char>, flags: seq<bool>)

  /** A key pressed, a terminal switch that is carried out, a character printed by the kernel or by a
      process of terminal t, the buffer of terminal t cleared, a line read by a process of terminal t. */
  datatype Event =
    | Key(key: char, ctrl: bool, fn: bool)
    | Switch(new_: nat)
    | Print(c: char)
    | Out(t: nat, c: char)
    | ClearBuffer(t: nat)
    | ReadLine(t: nat)

  datatype Action = Backspace | Enter | ClearScreen | Type | Ignore

  /** What the handler does for a key, in the order it decides. */
  function ActionOf(key: char, ctrl: bool, fn: bool, pos: int): Action {
    if key == BACKSPACE then Backspace
    else if key == '\n' || key == '\r' then Enter
    else if (key == 'l' || key == 'L') && ctrl then ClearScreen
    else if !fn && pos < BUFFER_SIZE && key != '\0' then Type
    else Ignore
  }

  function Cell(t: nat, p: int): int {
    1 + t * BUFFER_SIZE + p
  }

  predicate Sized(e: State) {
    && S.Ok(e.screen)
    && |e.input| == 1 + NUM_TERMINALS * BUFFER_SIZE
    && |e.pos| == |e.flags| == NUM_TERMINALS
    && |e.enter| == BUFFER_SIZE
  }

  /** Every buffer position is in its buffer, and at least as many cells precede the cursor as there
      are characters to erase. */
  predicate Ok(e: State) {
    && Sized(e)
    && forall t :: 0 <= t < NUM_TERMINALS ==>
         0 <= e.pos[t] <= BUFFER_SIZE && e.pos[t] <= S.NUM_COLS * e.screen.ys[t] + e.screen.xs[t]
  }

  predicate CanStep(ev: Event) {
    match ev
    case Switch(new_) => new_ < NUM_TERMINALS
    case Out(t, _) => t < NUM_TERMINALS
    case ClearBuffer(t) => t < NUM_TERMINALS
    case ReadLine(t) => t < NUM_TERMINALS
    case _ => true
  }

  /** What the event does to the screen, if anything. */
  function Echo(e: State, ev: Event): (echo: seq<S.Event>)
    requires Ok(e) && CanStep(ev)
    ensures |echo| <= 1 && (|echo| == 1 ==> S.CanStep(e.screen, echo[0]))
  {
    match ev
    case Key(key, ctrl, fn) =>
      var t := e.screen.active;
      (match ActionOf(key, ctrl, fn, e.pos[t])
       case Backspace =>
         assert e.pos[t] <= S.NUM_COLS * e.screen.ys[t] + e.screen.xs[t];
         ScreenRuns.BackStaysOnScreen(e.screen);
         if e.pos[t] > 0 then [S.Back] else []
       case Enter => [S.Put(key)]
       case ClearScreen => [S.Clear]
       case Type => [S.Put(key)]
       case Ignore => [])
    case Switch(new_) => [S.Switch(new_)]
    case Print(c) => [S.Put(c)]
    case Out(t, c) => [S.Out(t, c)]
    case ClearBuffer(_) => []
    case ReadLine(_) => []
  }

  function Shown(e: State, ev: Event): S.State
    requires Ok(e) && CanStep(ev)
  {
    var echo := Echo(e, ev);
    if echo == [] then e.screen else S.Step(e.screen, echo[0])
  }

  function Zeroed(input: seq<char>, t: nat): (r: seq<char>)
    requires |input| == 1 + NUM_TERMINALS * BUFFER_SIZE && t < NUM_TERMINALS
    ensures |r| == |input|
  {
    seq(|input|, i requires 0 <= i < |input| => if Cell(t, 0) <= i < Cell(t, BUFFER_SIZE) then '\0' else input[i])
  }

  /** The buffer of terminal t. */
  function Buffer(input: seq<char>, t: nat): (b: seq<char>)
    requires |input| == 1 + NUM_TERMINALS * BUFFER_SIZE && t < NUM_TERMINALS
    ensures |b| == BUFFER_SIZE
  {
    input[Cell(t, 0)..Cell(t, BUFFER_SIZE)]
  }

  function Pressed(e: State, action: Action, key: char): State
    requires Ok(e)
  {
    var t := e.screen.active;
    match action
    case Backspace =>
      e.(input := e.input[Cell(t, e.pos[t] - 1) := '\0'], pos := e.pos[t := if e.pos[t] > 0 then e.pos[t] - 1 else 0])
    case Enter =>
      e.(enter := Buffer(e.input, t), input := Zeroed(e.input, t), pos := e.pos[t := 0], flags := e.flags[t := true])
    case ClearScreen => e.(input := Zeroed(e.input, t), pos := e.pos[t := 0])
    case Type =>
      if e.pos[t] < BUFFER_SIZE then
        e.(input := e.input[Cell(t, e.pos[t]) := key], pos := e.pos[t := e.pos[t] + 1])
      else e
    case Ignore => e
  }

  function Step(e: State, ev: Event): State
    requires Ok(e) && CanStep(ev)
  {
    var e' :=
      match ev
      case Key(key, ctrl, fn) => Pressed(e, ActionOf(key, ctrl, fn, e.pos[e.screen.active]), key)
      case ClearBuffer(t) => e.(input := Zeroed(e.input, t), pos := e.pos[t := 0])
      case ReadLine(t) => e.(flags := e.flags[t := false])
      case _ => e;
    e'.(screen := Shown(e, ev))
  }

  // ----- Cursors -----

  /** How many cells precede the cursor of terminal u. */
  function At(s: S.State, u: nat): int
    requires |s.xs| == |s.ys| == NUM_TERMINALS && u < NUM_TERMINALS
  {
    S.NUM_COLS * s.ys[u] + s.xs[u]
  }

  /** A character moves the cursor on, or to the last row. */
  lemma PutMovesOn(s: S.State, t: nat, c: char, u: nat)
    requires S.Ok(s) && t < NUM_TERMINALS && u < NUM_TERMINALS
    ensures var was, now := At(s, u), At(S.PutTo(s, t, c), u);
      if u == t then now > was || now >= S.LAST_ROW else now == was
  {
  }

  /** An event on the screen takes at most one cell from before a cursor, unless it clears the screen. */
  lemma CursorMoves(s: S.State, x: S.Event, u: nat)
    requires S.Ok(s) && S.CanStep(s, x) && u < NUM_TERMINALS
    ensures var was, now := At(s, u), At(S.Step(s, x), u);
      if x.Clear? then now == (if u == s.active then 0 else was)
      else if x.Back? then now == (if u == s.active then was - 1 else was)
      else now >= was || now >= S.LAST_ROW
  {
    match x
    case Put(c) => PutMovesOn(s, s.active, c, u);
    case Out(t, c) => PutMovesOn(s, t, c, u);
    case _ =>
  }

  lemma CursorStaysAhead(e: State, ev: Event, u: nat)
    requires Ok(e) && CanStep(ev) && u < NUM_TERMINALS
    ensures 0 <= Step(e, ev).pos[u] <= BUFFER_SIZE && Step(e, ev).pos[u] <= At(Step(e, ev).screen, u)
  {
    var echo := Echo(e, ev);
    assert e.pos[u] <= At(e.screen, u);
    if echo != [] { CursorMoves(e.screen, echo[0], u); }
    if ev.Key? { TypingMovesOn(e, ev.key, ev.ctrl, ev.fn, u); }
  }

  /** A key that is typed moves the cursor on along with the position in the buffer. */
  lemma TypingMovesOn(e: State, key: char, ctrl: bool, fn: bool, u: nat)
    requires Ok(e) && u < NUM_TERMINALS
    ensures var t := e.screen.active;
      u == t && ActionOf(key, ctrl, fn, e.pos[t]) == Type ==>
        e.pos[u] + 1 <= At(Shown(e, Key(key, ctrl, fn)), u)
  {
    assert e.pos[u] <= At(e.screen, u);
    PutMovesOn(e.screen, e.screen.active, key, u);
  }

  /** Typing, erasing, printing, scrolling, clearing and switching in any order keep every cursor on the
      screen and at least as many cells before it as its line has characters. */
  lemma StepKeepsOk(e: State, ev: Event)
    requires Ok(e) && CanStep(ev)
    ensures Ok(Step(e, ev))
  {
    var echo := Echo(e, ev);
    if echo != [] { ScreenRuns.StepKeepsOk(e.screen, echo[0]); }
    var e' := Step(e, ev);
    forall u | 0 <= u < NUM_TERMINALS
      ensures 0 <= e'.pos[u] <= BUFFER_SIZE && e'.pos[u] <= At(e'.screen, u)
    {
      CursorStaysAhead(e, ev, u);
    }
  }
}
