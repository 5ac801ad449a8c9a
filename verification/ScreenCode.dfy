/** The screen code on its own mutable memory and cursors. Every method is proved to carry out the step
    of the same name in Screen. */
module ScreenCode {
  import opened Screen
  import ScreenRuns
  import ScreenText

  /** Where scrolling starts from in its row makes no difference. */
  lemma ScrollIgnoresX(s: State, s': State, n: nat, t: nat)
    requires Ok(s) && Ok(s') && t < NUM_TERMINALS && n <= NUM_COLS
    requires s'.mem == s.mem && s'.ys == s.ys && s'.active == s.active && s'.xs == s.xs[t := 0]
    ensures ScrollUp(s', n, t) == ScrollUp(s, n, t)
  {
  }

  /** The wrap of the cursor in the source's arithmetic. */
  lemma Wrapped(x: int, y: int)
    requires 1 <= x <= NUM_COLS && 0 <= y < NUM_ROWS && !(x == NUM_COLS && y == NUM_ROWS - 1)
    ensures (y + x / NUM_COLS) % NUM_ROWS == (if x == NUM_COLS then y + 1 else y)
    ensures x % NUM_COLS == if x == NUM_COLS then 0 else x
  {
  }

  lemma BlankedNone(mem: seq<char>, from: nat)
    ensures Blanked(mem, from, 0) == mem
  {
  }

  /** Blanking the cell before a blank stretch, on a page and on the display, makes it longer. */
  lemma BlankedTwoMore(mem: seq<char>, base: nat, i: nat, n: nat)
    requires i < LAST_ROW + NUM_COLS <= base && base + i < |mem|
    ensures Blanked(Blanked(mem, base + i + 1, n), i + 1, n)[base + i := ' '][i := ' ']
         == Blanked(Blanked(mem, base + i, n + 1), i, n + 1)
  {
  }

  /** What a process of terminal t has written stands on its page. */
  lemma WrittenText(s: State, t: nat, cs: string)
    requires Ok(s) && t < NUM_TERMINALS
    ensures t == s.active || ScreenText.WritesCleanly(s, t, cs) ==>
      forall tr :: ScreenText.ShowsOn(s, t, tr) ==>
        ScreenText.ShowsOn(ScreenText.OutAll(s, t, cs), t, ScreenText.TypedAll(tr, cs))
    ensures t != s.active ==> ScreenRuns.Display(ScreenText.OutAll(s, t, cs)) == ScreenRuns.Display(s)
  {
    if t == s.active || ScreenText.WritesCleanly(s, t, cs) {
      forall tr | ScreenText.ShowsOn(s, t, tr)
        ensures ScreenText.ShowsOn(ScreenText.OutAll(s, t, cs), t, ScreenText.TypedAll(tr, cs))
      {
        ScreenText.WrittenShows(s, t, cs, t, tr);
      }
    }
    if t != s.active { ScreenText.WrittenInBackground(s, t, cs); }
  }

  class Display {
    const mem: array<char>
    const screenX: array<int>
    const screenY: array<int>
    var active: nat
    var currVidMem: nat

    ghost predicate Valid()
      reads this, mem, screenX, screenY
    {
      && screenX != screenY
      && Sized(Abs())
      && currVidMem == Base(active)
    }

    ghost function Abs(): State
      reads this, mem, screenX, screenY
    {
      State(mem[..], screenX[..], screenY[..], active)
    }

    constructor ()
      ensures Valid() && Ok(Abs()) && active == 0 && fresh(mem) && fresh(screenX) && fresh(screenY)
    {
      mem := new char[(NUM_TERMINALS + 1) * PAGE](_ => '\0');
      screenX := new int[NUM_TERMINALS](_ => 0);
      screenY := new int[NUM_TERMINALS](_ => 0);
      active := 0;
      currVidMem := PAGE;
    }

    method Clear()
      requires Valid()
      modifies mem, screenX, screenY
      ensures Valid() && Abs() == StepClear(old(Abs()))
    {
      BlankPage(currVidMem);
      BlankPage(0);
      screenX[active] := 0;
      screenY[active] := 0;
    }

    method BlankPage(base: nat)
      requires base + CELLS <= mem.Length
      modifies mem
      ensures mem[..] == Blanked(old(mem[..]), base, CELLS)
    {
      var i := 0;
      while i < NUM_ROWS * NUM_COLS
        invariant i <= CELLS
        invariant mem[..] == Blanked(old(mem[..]), base, i)
      {
        mem[base + i] := ' ';
        i := i + 1;
      }
    }

    /** Erase the cell before the active terminal's cursor on the page of a terminal. */
    method PutBackspace(t: nat)
      requires Valid() && t < NUM_TERMINALS
      requires var x := if screenX[t] <= 0 then screenX[t] + NUM_COLS else screenX[t];
        var y := if screenX[t] <= 0 then screenY[t] - 1 else screenY[t];
        var k := if t == active then NUM_COLS * y + x - 1 else NUM_COLS * screenY[active] + screenX[active] - 1;
        -1 <= k < CELLS && (t == active ==> k >= 0)
      modifies mem, screenX, screenY
      ensures Valid()
      ensures var s := old(Abs());
        var x := if s.xs[t] <= 0 then s.xs[t] + NUM_COLS else s.xs[t];
        var y := if s.xs[t] <= 0 then s.ys[t] - 1 else s.ys[t];
        var k := if t == active then NUM_COLS * y + x - 1 else NUM_COLS * s.ys[active] + s.xs[active] - 1;
        var written := s.mem[Base(t) + k := ' '];
        Abs() == State(if t == active then written[k := ' '] else written, s.xs[t := x - 1], s.ys[t := y], active)
    {
      var page := Base(t);
      if screenX[t] <= 0 {
        screenX[t] := screenX[t] + NUM_COLS;
        screenY[t] := screenY[t] - 1;
      }
      mem[page + NUM_COLS * screenY[active] + (screenX[active] - 1)] := ' ';
      if t == active {
        mem[NUM_COLS * screenY[active] + (screenX[active] - 1)] := ' ';
      }
      screenX[t] := screenX[t] - 1;
    }

    /** A backspace on the active terminal. */
    method Backspace()
      requires Valid() && Ok(Abs()) && CanBack(Abs())
      modifies mem, screenX, screenY
      ensures Valid() && Abs() == StepBack(old(Abs()))
    {
      PutBackspace(active);
    }

    /** Move all rows of a page but the first up by one. */
    method MoveRows(base: nat)
      requires base + CELLS <= mem.Length
      modifies mem
      ensures mem[..] == MovedUp(old(mem[..]), base)
    {
      forall i | base <= i < base + LAST_ROW {
        mem[i] := mem[i + NUM_COLS];
      }
    }

    /** The state with the cursor of terminal t at the start of its row. */
    ghost function Home(t: nat): State
      requires Valid() && t < NUM_TERMINALS
      reads this, mem, screenX, screenY
    {
      Abs().(xs := screenX[..][t := 0])
    }

    /** Erase the last row back to its start, on the page and on the display. */
    method EraseRow(n: nat)
      requires Valid() && Ok(Home(active)) && n == screenX[active] <= NUM_COLS && screenY[active] == NUM_ROWS - 1
      modifies mem, screenX, screenY
      ensures Valid()
      ensures var s := old(Abs());
        Abs() == State(Blanked(Blanked(s.mem, Base(active) + LAST_ROW, n), LAST_ROW, n),
                       s.xs[active := 0], s.ys, active)
    {
      ghost var s := Abs();
      var i := n;
      BlankedNone(s.mem, Base(active) + LAST_ROW + n);
      BlankedNone(s.mem, LAST_ROW + n);
      while i > 0
        invariant 0 <= i <= n && Valid() && active == s.active
        invariant screenX[..] == s.xs[active := i] && screenY[..] == s.ys
        invariant mem[..] == Blanked(Blanked(s.mem, Base(active) + LAST_ROW + i, n - i), LAST_ROW + i, n - i)
      {
        BlankedTwoMore(s.mem, Base(active), LAST_ROW + i - 1, n - i);
        PutBackspace(active);
        i := i - 1;
      }
    }

    /** The same loop for a background terminal: every round erases the one stray cell. */
    method EraseStray(n: nat, t: nat)
      requires Valid() && t < NUM_TERMINALS && t != active && Ok(Home(t)) && n == screenX[t] <= NUM_COLS
      modifies mem, screenX, screenY
      ensures Valid()
      ensures var s := old(Home(t));
        Abs() == s.(mem := if n > 0 then s.mem[StrayCell(s, t) := ' '] else s.mem)
    {
      ghost var s := Home(t);
      var i := n;
      while i > 0
        invariant 0 <= i <= n && Valid() && active == s.active
        invariant screenX[..] == s.xs[t := i] && screenY[..] == s.ys
        invariant mem[..] == if i < n then s.mem[StrayCell(s, t) := ' '] else s.mem
      {
        PutBackspace(t);
        i := i - 1;
      }
    }

    /** Scroll terminal t, whose cursor is n cells into the last row. */
    method ScrollUp(n: nat, t: nat)
      requires Valid() && t < NUM_TERMINALS && Ok(Home(t)) && n == screenX[t] <= NUM_COLS
      requires screenY[t] == NUM_ROWS - 1
      modifies mem, screenX, screenY
      ensures Valid() && Abs() == Screen.ScrollUp(old(Home(t)), n, t)
    {
      MoveRows(Base(t));
      if active == t {
        MoveRows(0);
        EraseRow(n);
      } else {
        EraseStray(n, t);
      }
      screenY[t] := NUM_ROWS - 1;
    }

    /** Start a new row on terminal t. */
    method NewLine(t: nat)
      requires Valid() && Ok(Abs()) && t < NUM_TERMINALS
      modifies mem, screenX, screenY
      ensures Valid() && forall c: char :: IsNewline(c) ==> Abs() == PutTo(old(Abs()), t, c)
    {
      ghost var s := Abs();
      screenY[t] := screenY[t] + 1;
      if screenY[t] == NUM_ROWS {
        screenY[t] := screenY[t] - 1;
        assert screenY[..] == s.ys;
        ScrollIgnoresX(s, Home(t), s.xs[t], t);
        ScrollUp(screenX[t], t);
      }
      screenX[t] := 0;
    }

    /** Move the cursor of terminal t on after a character was written. */
    method Advance(t: nat, ghost s: State, ghost c: char)
      requires Valid() && Ok(s) && t < NUM_TERMINALS && !IsNewline(c)
      requires Abs() == s.(mem := Written(s, t, NUM_COLS * s.ys[t] + s.xs[t], c))
      modifies mem, screenX, screenY
      ensures Valid() && Abs() == PutTo(s, t, c)
    {
      ghost var w := Abs();
      screenX[t] := screenX[t] + 1;
      if !(screenX[t] == NUM_COLS && screenY[t] == NUM_ROWS - 1) {
        Wrapped(screenX[t], screenY[t]);
        screenY[t] := (screenY[t] + screenX[t] / NUM_COLS) % NUM_ROWS;
        screenX[t] := screenX[t] % NUM_COLS;
      } else {
        ScrollIgnoresX(w, Home(t), NUM_COLS, t);
        ScrollUp(NUM_COLS, t);
      }
    }

    /** Put a character on the active terminal. */
    method Putc(c: char)
      requires Valid() && Ok(Abs())
      modifies mem, screenX, screenY
      ensures Valid() && Abs() == PutTo(old(Abs()), active, c)
    {
      if c == '\n' || c == '\r' {
        NewLine(active);
      } else {
        ghost var s := Abs();
        mem[currVidMem + (NUM_COLS * screenY[active] + screenX[active])] := c;
        mem[NUM_COLS * screenY[active] + screenX[active]] := c;
        Advance(active, s, c);
      }
    }

    /** Put a character on the terminal of the calling process. */
    method TerminalPutc(t: nat, c: char)
      requires Valid() && Ok(Abs()) && t < NUM_TERMINALS
      modifies mem, screenX, screenY
      ensures Valid() && Abs() == PutTo(old(Abs()), t, c)
    {
      if c == '\n' || c == '\r' {
        NewLine(t);
      } else {
        ghost var s := Abs();
        mem[Base(t) + (NUM_COLS * screenY[t] + screenX[t])] := c;
        if active == t {
          mem[NUM_COLS * screenY[t] + screenX[t]] := c;
        }
        Advance(t, s, c);
      }
    }

    /** Make another terminal the active one, unless it has no process and none can be started. */
    method ChangeVideoMem(oldTerm: nat, newTerm: nat, refused: bool)
      requires Valid() && oldTerm == active && newTerm < NUM_TERMINALS
      modifies this`active, this`currVidMem, mem
      ensures Valid()
      ensures Abs() == if refused then old(Abs()) else StepSwitch(old(Abs()), newTerm)
    {
      if oldTerm == newTerm || refused {
        return;
      }
      active := newTerm;
      currVidMem := Base(newTerm);
      forall i | 0 <= i < CELLS {
        mem[i] := mem[currVidMem + i];
      }
    }

    /** A process of terminal t writes a buffer. */
    method TerminalWrite(t: nat, buf: seq<char>) returns (n: nat)
      requires Valid() && Ok(Abs()) && t < NUM_TERMINALS
      modifies mem, screenX, screenY
      ensures Valid() && Ok(Abs()) && n == |buf|
      ensures Abs() == ScreenText.OutAll(old(Abs()), t, buf)
      ensures t == active || ScreenText.WritesCleanly(old(Abs()), t, buf) ==>
        forall tr :: ScreenText.ShowsOn(old(Abs()), t, tr) ==> ScreenText.ShowsOn(Abs(), t, ScreenText.TypedAll(tr, buf))
      ensures t != active ==> ScreenRuns.Display(Abs()) == old(ScreenRuns.Display(Abs()))
    {
      var i := 0;
      while i < |buf|
        invariant i <= |buf| && Valid() && Ok(Abs()) && active == old(active)
        invariant Abs() == ScreenText.OutAll(old(Abs()), t, buf[..i])
      {
        ScreenRuns.StepKeepsOk(Abs(), Event.Out(t, buf[i]));
        assert buf[..i + 1][..i] == buf[..i];
        TerminalPutc(t, buf[i]);
        i := i + 1;
      }
      assert buf[..i] == buf;
      WrittenText(old(Abs()), t, buf);
      n := |buf|;
    }
  }
}
