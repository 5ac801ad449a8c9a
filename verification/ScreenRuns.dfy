/** What every step keeps of the screen: cursors on the screen, the display equal to the page of the
    active terminal, and every other page untouched. */
module ScreenRuns {
  import opened Screen
  import opened Sequences
  import Runs

  /** The cells of a page that can be shown. */
  ghost function Cells(mem: seq<char>, at: nat): (page: seq<char>)
    requires at + CELLS <= |mem|
    ensures |page| == CELLS
  {
    mem[at..at + CELLS]
  }

  ghost function Display(s: State): seq<char>
    requires Sized(s)
  {
    Cells(s.mem, 0)
  }

  ghost function Page(s: State, t: nat): seq<char>
    requires Sized(s) && t < NUM_TERMINALS
  {
    Cells(s.mem, Base(t))
  }

  // ----- Pages on their own -----

  function PageUp(page: seq<char>): (r: seq<char>)
    requires |page| == CELLS
    ensures |r| == CELLS
  {
    page[NUM_COLS..] + page[LAST_ROW..]
  }

  function PageBlanked(page: seq<char>, n: nat): (r: seq<char>)
    requires |page| == CELLS && n <= NUM_COLS
    ensures |r| == CELLS
  {
    page[..LAST_ROW] + Repeat(' ', n) + page[LAST_ROW + n..]
  }

  lemma MovedUpPage(mem: seq<char>, base: nat, at: nat)
    requires base + CELLS <= |mem| && at + CELLS <= |mem|
    ensures at == base ==> Cells(MovedUp(mem, base), at) == PageUp(Cells(mem, at))
    ensures at + CELLS <= base || base + CELLS <= at ==> Cells(MovedUp(mem, base), at) == Cells(mem, at)
  {
  }

  lemma BlankedPage(mem: seq<char>, base: nat, n: nat, at: nat)
    requires base + CELLS <= |mem| && at + CELLS <= |mem| && n <= NUM_COLS
    ensures at == base ==> Cells(Blanked(mem, base + LAST_ROW, n), at) == PageBlanked(Cells(mem, at), n)
    ensures at + CELLS <= base || base + CELLS <= at ==>
      Cells(Blanked(mem, base + LAST_ROW, n), at) == Cells(mem, at)
  {
  }

  lemma ClearedPage(mem: seq<char>, base: nat, at: nat)
    requires base + CELLS <= |mem| && at + CELLS <= |mem|
    ensures at == base ==> Cells(Blanked(mem, base, CELLS), at) == Repeat(' ', CELLS)
    ensures at + CELLS <= base || base + CELLS <= at ==> Cells(Blanked(mem, base, CELLS), at) == Cells(mem, at)
  {
  }

  lemma UpdatedPage(mem: seq<char>, k: nat, c: char, at: nat)
    requires k < |mem| && at + CELLS <= |mem|
    ensures at <= k < at + CELLS ==> Cells(mem[k := c], at) == Cells(mem, at)[k - at := c]
    ensures k < at || at + CELLS <= k ==> Cells(mem[k := c], at) == Cells(mem, at)
  {
  }

  // ----- The steps on pages -----

  /** Writing one cell. */
  lemma WrittenPages(s: State, t: nat, k: nat, c: char, u: nat)
    requires Sized(s) && t < NUM_TERMINALS && u < NUM_TERMINALS && k < CELLS
    ensures var s' := s.(mem := Written(s, t, k, c));
      && Page(s', u) == (if u == t then Page(s, u)[k := c] else Page(s, u))
      && Display(s') == (if t == s.active then Display(s)[k := c] else Display(s))
  {
    UpdatedPage(s.mem, Base(t) + k, c, Base(u));
    UpdatedPage(s.mem, Base(t) + k, c, 0);
    var mem := s.mem[Base(t) + k := c];
    UpdatedPage(mem, k, c, Base(u));
    UpdatedPage(mem, k, c, 0);
  }

  lemma ScrolledPage(mem: seq<char>, base: nat, n: nat, at: nat)
    requires CELLS <= base && base + CELLS <= |mem| && at + CELLS <= |mem| && n <= NUM_COLS
    ensures var page, page' := Cells(mem, at), Cells(ScrolledUp(mem, base, n), at);
      && (at == base || at == 0 ==> page' == PageBlanked(PageUp(page), n))
      && (CELLS <= at && (at + CELLS <= base || base + CELLS <= at) ==> page' == page)
  {
    var m1 := MovedUp(mem, base);
    var m2 := MovedUp(m1, 0);
    var m3 := Blanked(m2, base + LAST_ROW, n);
    MovedUpPage(mem, base, at);
    MovedUpPage(m1, 0, at);
    BlankedPage(m2, base, n, at);
    BlankedPage(m3, 0, n, at);
  }

  /** Scrolling the active terminal. */
  lemma ForegroundScroll(s: State, n: nat, u: nat)
    requires Ok(s) && u < NUM_TERMINALS && n <= NUM_COLS
    ensures var s' := ScrollUp(s, n, s.active);
      && Page(s', u) == (if u == s.active then PageBlanked(PageUp(Page(s, u)), n) else Page(s, u))
      && Display(s') == PageBlanked(PageUp(Display(s)), n)
  {
    ScrolledPage(s.mem, Base(s.active), n, Base(u));
    ScrolledPage(s.mem, Base(s.active), n, 0);
  }

  /** Scrolling a background terminal: nothing of the last row is blanked, and one stray cell is. */
  lemma BackgroundScroll(s: State, n: nat, t: nat, u: nat)
    requires Ok(s) && t < NUM_TERMINALS && t != s.active && u < NUM_TERMINALS && n <= NUM_COLS
    ensures var s' := ScrollUp(s, n, t);
      var k := StrayCell(s, t) - Base(t);
      && Page(s', u) == (if u != t then Page(s, u)
                         else if n > 0 && k >= 0 then PageUp(Page(s, t))[k := ' ']
                         else PageUp(Page(s, t)))
      && Display(s') == Display(s)
  {
    var m1 := MovedUp(s.mem, Base(t));
    MovedUpPage(s.mem, Base(t), Base(u)); MovedUpPage(s.mem, Base(t), 0);
    UpdatedPage(m1, StrayCell(s, t), ' ', Base(u)); UpdatedPage(m1, StrayCell(s, t), ' ', 0);
  }

  /** Putting a character on a page whose cursor is at (x, y). */
  function PagePut(page: seq<char>, x: nat, y: nat, c: char): (r: seq<char>)
    requires |page| == CELLS && x < NUM_COLS && y < NUM_ROWS
    ensures |r| == CELLS
  {
    if IsNewline(c) then
      if y == NUM_ROWS - 1 then PageBlanked(PageUp(page), x) else page
    else
      var p := page[NUM_COLS * y + x := c];
      if x == NUM_COLS - 1 && y == NUM_ROWS - 1 then PageBlanked(PageUp(p), NUM_COLS) else p
  }

  lemma ForegroundNewline(s: State, c: char, u: nat)
    requires Ok(s) && u < NUM_TERMINALS && IsNewline(c)
    ensures var s', t := PutTo(s, s.active, c), s.active;
      && Page(s', u) == (if u == t then PagePut(Page(s, u), s.xs[t], s.ys[t], c) else Page(s, u))
      && Display(s') == PagePut(Display(s), s.xs[t], s.ys[t], c)
  {
    ForegroundScroll(s, s.xs[s.active], u);
  }

  lemma ForegroundWrite(s: State, c: char, u: nat)
    requires Ok(s) && u < NUM_TERMINALS && !IsNewline(c)
    ensures var s', t := PutTo(s, s.active, c), s.active;
      && Page(s', u) == (if u == t then PagePut(Page(s, u), s.xs[t], s.ys[t], c) else Page(s, u))
      && Display(s') == PagePut(Display(s), s.xs[t], s.ys[t], c)
  {
    var t := s.active;
    var k := NUM_COLS * s.ys[t] + s.xs[t];
    var w := s.(mem := Written(s, t, k, c));
    WrittenPages(s, t, k, c, u);
    if Scrolls(s, t, c) {
      ForegroundScroll(w, NUM_COLS, u);
      assert PutTo(s, t, c) == ScrollUp(w, NUM_COLS, t);
    } else {
      assert PutTo(s, t, c).mem == w.mem;
    }
  }

  /** A character put on the active terminal changes its page and the display alike, and no other page. */
  lemma ForegroundPut(s: State, c: char, u: nat)
    requires Ok(s) && u < NUM_TERMINALS
    ensures var s', t := PutTo(s, s.active, c), s.active;
      && Page(s', u) == (if u == t then PagePut(Page(s, u), s.xs[t], s.ys[t], c) else Page(s, u))
      && Display(s') == PagePut(Display(s), s.xs[t], s.ys[t], c)
  {
    if IsNewline(c) { ForegroundNewline(s, c, u); } else { ForegroundWrite(s, c, u); }
  }

  /** A character put on a background terminal changes its page only: like a foreground page unless
      it scrolls. */
  lemma BackgroundPut(s: State, t: nat, c: char, u: nat)
    requires Ok(s) && t < NUM_TERMINALS && t != s.active && u < NUM_TERMINALS
    ensures var s' := PutTo(s, t, c);
      && (u != t ==> Page(s', u) == Page(s, u))
      && (u == t && !Scrolls(s, t, c) ==> Page(s', u) == PagePut(Page(s, u), s.xs[t], s.ys[t], c))
      && Display(s') == Display(s)
  {
    if IsNewline(c) {
      BackgroundScroll(s, s.xs[t], t, u);
    } else {
      var k := NUM_COLS * s.ys[t] + s.xs[t];
      WrittenPages(s, t, k, c, u);
      BackgroundScroll(s.(mem := Written(s, t, k, c)), NUM_COLS, t, u);
    }
  }

  /** A backspace changes the display and the page of the active terminal alike, and no other page. */
  lemma BackPages(s: State, u: nat)
    requires Ok(s) && CanBack(s) && u < NUM_TERMINALS
    ensures var s', t := StepBack(s), s.active;
      var k := NUM_COLS * s'.ys[t] + s'.xs[t];
      && 0 <= k < CELLS && k + 1 == NUM_COLS * s.ys[t] + s.xs[t]
      && Page(s', u) == (if u == t then Page(s, t)[k := ' '] else Page(s, u))
      && Display(s') == Display(s)[k := ' ']
  {
    WrittenPages(s, s.active, NUM_COLS * s.ys[s.active] + s.xs[s.active] - 1, ' ', u);
  }

  lemma ClearPages(s: State, u: nat)
    requires Sized(s) && u < NUM_TERMINALS
    ensures var s' := StepClear(s);
      && Page(s', u) == (if u == s.active then Repeat(' ', CELLS) else Page(s, u))
      && Display(s') == Repeat(' ', CELLS)
  {
    var mem := Blanked(s.mem, Base(s.active), CELLS);
    ClearedPage(s.mem, Base(s.active), Base(u));
    ClearedPage(mem, 0, Base(u));
    ClearedPage(mem, 0, 0);
  }

  lemma SwitchPages(s: State, new_: nat, u: nat)
    requires Sized(s) && new_ < NUM_TERMINALS && u < NUM_TERMINALS
    ensures var s' := StepSwitch(s, new_);
      && Page(s', u) == Page(s, u)
      && Display(s') == (if new_ == s.active then Display(s) else Page(s, new_))
  {
  }

  // ----- What every step keeps -----

  /** Every cursor stays on the screen. */
  lemma StepKeepsOk(s: State, e: Event)
    requires Ok(s) && CanStep(s, e)
    ensures Ok(Step(s, e))
  {
  }

  /** A backspace leaves the screen exactly when the cursor is in the first cell. */
  lemma BackStaysOnScreen(s: State)
    requires Ok(s)
    ensures CanBack(s) <==> NUM_COLS * s.ys[s.active] + s.xs[s.active] > 0
  {
  }

  ghost predicate Mirror(s: State)
    requires Sized(s)
  {
    Display(s) == Page(s, s.active)
  }

  /** The display shows the page of the active terminal. */
  lemma StepKeepsMirror(s: State, e: Event)
    requires Ok(s) && CanStep(s, e) && Mirror(s)
    ensures Mirror(Step(s, e))
  {
    var t := s.active;
    match e
    case Put(c) => ForegroundPut(s, c, t);
    case Out(u, c) => if u == t { ForegroundPut(s, c, t); } else { BackgroundPut(s, u, c, t); }
    case Back => BackPages(s, t);
    case Clear => ClearPages(s, t);
    case Switch(new_) => SwitchPages(s, new_, new_);
  }

  /** What processes of background terminals write never changes the display. */
  lemma BackgroundNeverShows(s: State, t: nat, c: char)
    requires Ok(s) && t < NUM_TERMINALS && t != s.active
    ensures Display(Step(s, Out(t, c))) == Display(s)
  {
    BackgroundPut(s, t, c, t);
  }

  // ----- Runs -----

  /** From a state in order the event makes its step. */
  ghost predicate Next(s: State, e: Event, s': State) {
    Ok(s) ==> CanStep(s, e) && s' == Step(s, e)
  }

  ghost predicate Stepped(ss: seq<State>, es: seq<Event>, i: nat)
    requires i < |es| && |ss| == |es| + 1
  {
    Runs.Stepped(Next, ss, es, i)
  }

  ghost predicate IsRun(ss: seq<State>, es: seq<Event>) {
    Runs.IsRun(Next, ss, es)
  }

  /** In every run the cursors stay on the screen and the display is the page of the active terminal. */
  lemma {:induction false} RunKeepsMirror(ss: seq<State>, es: seq<Event>, n: nat)
    requires IsRun(ss, es) && Ok(ss[0]) && Mirror(ss[0]) && n < |ss|
    ensures Ok(ss[n]) && Mirror(ss[n])
  {
    if n > 0 {
      RunKeepsMirror(ss, es, n - 1);
      assert Stepped(ss, es, n - 1);
      StepKeepsOk(ss[n - 1], es[n - 1]);
      StepKeepsMirror(ss[n - 1], es[n - 1]);
    }
  }
}
