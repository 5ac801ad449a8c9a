/** The characters of video memory and of the terminals' backing pages, and the cursors. Page 0 is what
    the display shows, page t + 1 backs terminal t. A page has room for more cells than the display. */
module Screen {

  const NUM_COLS := 80
  const NUM_ROWS := 25
  const CELLS := 2000
  const LAST_ROW := 1920
  const PAGE := 2048
  const NUM_TERMINALS := 3

  datatype State = State(mem: seq<char>, xs: seq<int>, ys: seq<int>, active: nat)

  /** What changes the screen: a character put on the active terminal by the kernel or the keyboard, a
      character written by a process of terminal t, a backspace, a clear, a terminal switch. */
  datatype Event = Put(c: char) | Out(t: nat, c: char) | Back | Clear | Switch(new_: nat)

  function Base(t: nat): nat {
    (t + 1) * PAGE
  }

  predicate Sized(s: State) {
    && |s.mem| == (NUM_TERMINALS + 1) * PAGE
    && |s.xs| == |s.ys| == NUM_TERMINALS
    && s.active < NUM_TERMINALS
  }

  /** Every cursor is on the screen. */
  predicate Ok(s: State) {
    Sized(s) && forall t :: 0 <= t < NUM_TERMINALS ==> 0 <= s.xs[t] < NUM_COLS && 0 <= s.ys[t] < NUM_ROWS
  }

  // ----- Steps -----

  /** Cells of the page of terminal t, and of the display if it is active. */
  function Written(s: State, t: nat, k: int, c: char): (mem: seq<char>)
    requires Sized(s) && t < NUM_TERMINALS && 0 <= k < CELLS
    ensures |mem| == |s.mem|
  {
    var mem := s.mem[Base(t) + k := c];
    if t == s.active then mem[k := c] else mem
  }

  function MovedUp(mem: seq<char>, base: nat): (r: seq<char>)
    requires base + CELLS <= |mem|
    ensures |r| == |mem|
  {
    seq(|mem|, i requires 0 <= i < |mem| => if base <= i < base + LAST_ROW then mem[i + NUM_COLS] else mem[i])
  }

  function Blanked(mem: seq<char>, from: nat, n: nat): (r: seq<char>)
    ensures |r| == |mem|
  {
    seq(|mem|, i requires 0 <= i < |mem| => if from <= i < from + n then ' ' else mem[i])
  }

  function Copied(mem: seq<char>, from: nat): (r: seq<char>)
    requires from + CELLS <= |mem|
    ensures |r| == |mem|
  {
    seq(|mem|, i requires 0 <= i < |mem| => if i < CELLS then mem[from + i] else mem[i])
  }

  /** Scroll the page at base and the display, and blank the n cells before the cursor in the last row. */
  function ScrolledUp(mem: seq<char>, base: nat, n: nat): (r: seq<char>)
    requires CELLS <= base && base + CELLS <= |mem|
    ensures |r| == |mem|
  {
    Blanked(Blanked(MovedUp(MovedUp(mem, base), 0), base + LAST_ROW, n), LAST_ROW, n)
  }

  /** The cell that scrolling a background page blanks: the one before the active terminal's cursor. */
  function StrayCell(s: State, t: nat): (a: nat)
    requires Ok(s) && t < NUM_TERMINALS
    ensures Base(t) - 1 <= a < Base(t) + CELLS
  {
    Base(t) + NUM_COLS * s.ys[s.active] + s.xs[s.active] - 1
  }

  /** Scroll the page of terminal t, whose cursor is n cells into the last row. Of the last row only
      the n cells before the cursor are blanked, and on a background page not even those. */
  function ScrollUp(s: State, n: nat, t: nat): (s': State)
    requires Ok(s) && t < NUM_TERMINALS && n <= NUM_COLS
    ensures Sized(s') && s'.active == s.active
  {
    var mem :=
      if t == s.active then ScrolledUp(s.mem, Base(t), n)
      else if n > 0 then MovedUp(s.mem, Base(t))[StrayCell(s, t) := ' ']
      else MovedUp(s.mem, Base(t));
    State(mem, s.xs[t := 0], s.ys[t := NUM_ROWS - 1], s.active)
  }

  predicate IsNewline(c: char) {
    c == '\n' || c == '\r'
  }

  /** Put a character at the cursor of terminal t. */
  function PutTo(s: State, t: nat, c: char): (s': State)
    requires Ok(s) && t < NUM_TERMINALS
    ensures Sized(s') && s'.active == s.active
  {
    var x, y := s.xs[t], s.ys[t];
    if IsNewline(c) then
      if y == NUM_ROWS - 1 then ScrollUp(s, x, t) else State(s.mem, s.xs[t := 0], s.ys[t := y + 1], s.active)
    else
      var mem := Written(s, t, NUM_COLS * y + x, c);
      if x + 1 < NUM_COLS then State(mem, s.xs[t := x + 1], s.ys, s.active)
      else if y == NUM_ROWS - 1 then ScrollUp(s.(mem := mem), NUM_COLS, t)
      else State(mem, s.xs[t := 0], s.ys[t := y + 1], s.active)
  }

  /** Whether the character makes the page of terminal t scroll. */
  predicate Scrolls(s: State, t: nat, c: char)
    requires Ok(s) && t < NUM_TERMINALS
  {
    s.ys[t] == NUM_ROWS - 1 && (IsNewline(c) || s.xs[t] == NUM_COLS - 1)
  }

  /** Whether a backspace on the active terminal stays on the screen. */
  predicate CanBack(s: State)
    requires Ok(s)
  {
    s.xs[s.active] > 0 || s.ys[s.active] > 0
  }

  /** Erase the cell before the cursor of the active terminal and move the cursor there. */
  function StepBack(s: State): (s': State)
    requires Ok(s) && CanBack(s)
    ensures Sized(s') && s'.active == s.active
  {
    var t := s.active;
    var x, y := s.xs[t], s.ys[t];
    var x', y' := if x > 0 then x else NUM_COLS, if x > 0 then y else y - 1;
    State(Written(s, t, NUM_COLS * y' + x' - 1, ' '), s.xs[t := x' - 1], s.ys[t := y'], t)
  }

  function StepClear(s: State): (s': State)
    requires Sized(s)
    ensures Sized(s') && s'.active == s.active
  {
    var t := s.active;
    State(Blanked(Blanked(s.mem, Base(t), CELLS), 0, CELLS), s.xs[t := 0], s.ys[t := 0], t)
  }

  function StepSwitch(s: State, new_: nat): (s': State)
    requires Sized(s) && new_ < NUM_TERMINALS
    ensures Sized(s') && s'.active == new_
  {
    if new_ == s.active then s else s.(mem := Copied(s.mem, Base(new_)), active := new_)
  }

  predicate CanStep(s: State, e: Event)
    requires Ok(s)
  {
    match e
    case Out(t, _) => t < NUM_TERMINALS
    case Back => CanBack(s)
    case Switch(new_) => new_ < NUM_TERMINALS
    case _ => true
  }

  function Step(s: State, e: Event): (s': State)
    requires Ok(s) && CanStep(s, e)
    ensures Sized(s')
  {
    match e
    case Put(c) => PutTo(s, s.active, c)
    case Out(t, c) => PutTo(s, t, c)
    case Back => StepBack(s)
    case Clear => StepClear(s)
    case Switch(new_) => StepSwitch(s, new_)
  }
}
