/** The screens of whole runs are windows on the text of each terminal. */
module ScreenText {
  import opened Screen
  import opened ScreenRuns
  import opened Transcript
  import opened Sequences
  import opened TextLines
  import Runs

  /** The page of terminal t and its cursor show this text. */
  ghost predicate ShowsOn(s: State, t: nat, tr: Text)
    requires Sized(s) && t < NUM_TERMINALS
  {
    Shows(Page(s, t), s.xs[t], s.ys[t], tr)
  }

  // ----- Scrolling in the background -----

  /** The page of terminal t once the character is written, before it scrolls. */
  ghost function Before(s: State, t: nat, c: char): (page: seq<char>)
    requires Ok(s) && t < NUM_TERMINALS
    ensures |page| == CELLS
  {
    if IsNewline(c) then Page(s, t) else Page(s, t)[NUM_COLS * s.ys[t] + s.xs[t] := c]
  }

  /** The n cells to be blanked in the last row are blank but for cell k, where the scroll strays to,
      and what it strays to is blank already. */
  predicate CleanBut(page: seq<char>, n: nat, k: int)
    requires |page| == CELLS && n <= NUM_COLS
  {
    n == 0 || (
      && (forall i :: LAST_ROW <= i < LAST_ROW + n && i != k ==> page[i] == ' ')
      && (0 <= k < LAST_ROW ==> page[k + NUM_COLS] == ' ')
      && (LAST_ROW + n <= k < CELLS ==> page[k] == ' '))
  }

  ghost predicate ScrollsCleanly(s: State, t: nat, c: char)
    requires Ok(s) && t < NUM_TERMINALS
  {
    CleanBut(Before(s, t, c), if IsNewline(c) then s.xs[t] else NUM_COLS, StrayCell(s, t) - Base(t))
  }

  /** A page that shows a text is determined by it. */
  lemma ShowsOnlyOne(page: seq<char>, page': seq<char>, x: int, y: int, tr: Text)
    requires Shows(page, x, y, tr) && Shows(page', x, y, tr)
    ensures page == page'
  {
    forall i | 0 <= i < CELLS
      ensures page[i] == page'[i]
    {
      var r, c := i / NUM_COLS, i % NUM_COLS;
      assert i == NUM_COLS * r + c;
      assert page[NUM_COLS * r + c] == CellOf(tr, r, c);
    }
  }

  /** What a background scroll makes of a page when a row is full. */
  lemma BackgroundRowPage(s: State, t: nat, c: char)
    requires Ok(s) && t < NUM_TERMINALS && t != s.active && Scrolls(s, t, c) && !IsNewline(c)
    ensures var k, up := StrayCell(s, t) - Base(t), PageUp(Before(s, t, c));
      Page(PutTo(s, t, c), t) == (if k >= 0 then up[k := ' '] else up)
  {
    var cell := NUM_COLS * s.ys[t] + s.xs[t];
    var w := s.(mem := Written(s, t, cell, c));
    assert PutTo(s, t, c) == ScrollUp(w, NUM_COLS, t);
    WrittenPages(s, t, cell, c, t);
    BackgroundScroll(w, NUM_COLS, t, t);
    assert StrayCell(w, t) == StrayCell(s, t);
  }

  /** What a background scroll makes of a page. */
  lemma BackgroundPage(s: State, t: nat, c: char)
    requires Ok(s) && t < NUM_TERMINALS && t != s.active && Scrolls(s, t, c)
    ensures var n := if IsNewline(c) then s.xs[t] else NUM_COLS;
      var k, up := StrayCell(s, t) - Base(t), PageUp(Before(s, t, c));
      && Page(PutTo(s, t, c), t) == (if n > 0 && k >= 0 then up[k := ' '] else up)
      && PageBlanked(up, n) == PagePut(Page(s, t), s.xs[t], s.ys[t], c)
  {
    if IsNewline(c) {
      assert PutTo(s, t, c) == ScrollUp(s, s.xs[t], t);
      BackgroundScroll(s, s.xs[t], t, t);
    } else {
      BackgroundRowPage(s, t, c);
    }
  }

  /** Blanking one stray cell equals blanking the last row exactly under that condition. */
  lemma StrayIsClean(page: seq<char>, n: nat, k: int)
    requires |page| == CELLS && n <= NUM_COLS && -1 <= k < CELLS
    ensures (if n > 0 && k >= 0 then PageUp(page)[k := ' '] else PageUp(page)) == PageBlanked(PageUp(page), n)
       <==> CleanBut(page, n, k)
  {
    var up := PageUp(page);
    var got := if n > 0 && k >= 0 then up[k := ' '] else up;
    var wanted := PageBlanked(up, n);
    assert forall i :: 0 <= i < LAST_ROW ==> up[i] == page[i + NUM_COLS] && wanted[i] == up[i];
    assert forall i :: LAST_ROW <= i < CELLS ==> up[i] == page[i] && wanted[i] == if i < LAST_ROW + n then ' ' else up[i];
    if CleanBut(page, n, k) {
      assert forall i :: 0 <= i < CELLS ==> got[i] == wanted[i];
    }
    if got == wanted && n > 0 {
      forall i | LAST_ROW <= i < LAST_ROW + n && i != k ensures page[i] == ' ' {
        assert got[i] == wanted[i];
      }
      if k >= 0 { assert got[k] == wanted[k]; }
    }
  }

  /** A page that scrolls in the background is what it should be exactly when it scrolls cleanly. */
  lemma BackgroundCorrect(s: State, t: nat, c: char)
    requires Ok(s) && t < NUM_TERMINALS && t != s.active && Scrolls(s, t, c)
    ensures Page(PutTo(s, t, c), t) == PagePut(Page(s, t), s.xs[t], s.ys[t], c) <==> ScrollsCleanly(s, t, c)
  {
    BackgroundPage(s, t, c);
    StrayIsClean(Before(s, t, c), if IsNewline(c) then s.xs[t] else NUM_COLS, StrayCell(s, t) - Base(t));
  }

  /** A page that scrolls in the background still shows its terminal's text exactly when it scrolls
      cleanly. */
  lemma BackgroundScrollIsExact(s: State, t: nat, c: char, tr: Text)
    requires Ok(s) && t < NUM_TERMINALS && t != s.active && Scrolls(s, t, c) && ShowsOn(s, t, tr)
    ensures ShowsOn(PutTo(s, t, c), t, Typed(tr, c)) <==> ScrollsCleanly(s, t, c)
  {
    var s' := PutTo(s, t, c);
    BackgroundCorrect(s, t, c);
    PutShows(Page(s, t), s.xs[t], s.ys[t], c, tr);
    if ShowsOn(s', t, Typed(tr, c)) {
      ShowsOnlyOne(Page(s', t), PagePut(Page(s, t), s.xs[t], s.ys[t], c), s'.xs[t], s'.ys[t], Typed(tr, c));
    }
  }

  // ----- Steps and runs -----

  /** What an event does to the text of terminal t. */
  ghost function TextAfter(s: State, e: Event, t: nat, tr: Text): Text
    requires Ok(s) && CanStep(s, e) && t < NUM_TERMINALS && (e.Back? ==> ShowsOn(s, t, tr)) && tr.rows != []
  {
    match e
    case Put(c) => if t == s.active then Typed(tr, c) else tr
    case Out(u, c) => if t == u then Typed(tr, c) else tr
    case Back => if t == s.active then Erased(tr) else tr
    case Clear => if t == s.active then EMPTY_TEXT else tr
    case Switch(_) => tr
  }

  /** The event scrolls the page of terminal t in the background, and not cleanly. */
  ghost predicate Smears(s: State, e: Event, t: nat)
    requires Ok(s) && CanStep(s, e) && t < NUM_TERMINALS
  {
    e.Out? && e.t == t && t != s.active && Scrolls(s, t, e.c) && !ScrollsCleanly(s, t, e.c)
  }

  lemma PutShowsOn(s: State, t: nat, c: char, u: nat, tr: Text)
    requires Ok(s) && t < NUM_TERMINALS && u < NUM_TERMINALS && ShowsOn(s, u, tr)
    requires t == s.active || u != t || !Scrolls(s, t, c) || ScrollsCleanly(s, t, c)
    ensures ShowsOn(PutTo(s, t, c), u, if u == t then Typed(tr, c) else tr)
  {
    if t == s.active { ForegroundPut(s, c, u); } else { BackgroundPut(s, t, c, u); }
    if u == t {
      PutShows(Page(s, t), s.xs[t], s.ys[t], c, tr);
      if t != s.active && Scrolls(s, t, c) { BackgroundScrollIsExact(s, t, c, tr); }
    }
  }

  /** Every step takes the window on a terminal's text to the window on its text after the step. */
  lemma StepShowsText(s: State, e: Event, t: nat, tr: Text)
    requires Ok(s) && CanStep(s, e) && t < NUM_TERMINALS && ShowsOn(s, t, tr) && !Smears(s, e, t)
    ensures ShowsOn(Step(s, e), t, TextAfter(s, e, t, tr))
  {
    match e
    case Put(c) => PutShowsOn(s, s.active, c, t, tr);
    case Out(u, c) => PutShowsOn(s, u, c, t, tr);
    case Back =>
      BackPages(s, t);
      if t == s.active { BackShows(Page(s, t), s.xs[t], s.ys[t], tr); }
    case Clear =>
      ClearPages(s, t);
      EmptyShows();
    case Switch(new_) => SwitchPages(s, new_, t);
  }

  /** The texts of terminal t along a run. */
  ghost predicate Texts(ss: seq<State>, es: seq<Event>, t: nat, trs: seq<Text>)
    requires IsRun(ss, es) && t < NUM_TERMINALS
  {
    && |trs| == |ss|
    && forall i :: 0 <= i < |es| ==> TextStep(ss, es, t, trs, i)
  }

  ghost predicate TextStep(ss: seq<State>, es: seq<Event>, t: nat, trs: seq<Text>, i: nat)
    requires i < |es| && |ss| == |trs| == |es| + 1 && t < NUM_TERMINALS
  {
    Ok(ss[i]) && CanStep(ss[i], es[i]) && ShowsOn(ss[i], t, trs[i]) ==>
      trs[i + 1] == TextAfter(ss[i], es[i], t, trs[i])
  }

  ghost predicate NeverSmears(ss: seq<State>, es: seq<Event>, t: nat)
    requires IsRun(ss, es) && t < NUM_TERMINALS
  {
    forall i :: 0 <= i < |es| ==> SmearFree(ss, es, t, i)
  }

  ghost predicate SmearFree(ss: seq<State>, es: seq<Event>, t: nat, i: nat)
    requires i < |es| && |ss| == |es| + 1 && t < NUM_TERMINALS
  {
    Ok(ss[i]) && CanStep(ss[i], es[i]) ==> !Smears(ss[i], es[i], t)
  }

  /** In every run in which its page never scrolls uncleanly in the background, the page of a terminal
      is the window on its text; when the terminal is active, so is the display. */
  lemma {:induction false} RunShowsText(ss: seq<State>, es: seq<Event>, t: nat, trs: seq<Text>, n: nat)
    requires IsRun(ss, es) && Ok(ss[0]) && Mirror(ss[0]) && t < NUM_TERMINALS && n < |ss|
    requires Texts(ss, es, t, trs) && ShowsOn(ss[0], t, trs[0]) && NeverSmears(ss, es, t)
    ensures Ok(ss[n]) && ShowsOn(ss[n], t, trs[n])
    ensures ss[n].active == t ==> Shows(Display(ss[n]), ss[n].xs[t], ss[n].ys[t], trs[n])
  {
    RunKeepsMirror(ss, es, n);
    if n > 0 {
      RunShowsText(ss, es, t, trs, n - 1);
      assert Stepped(ss, es, n - 1) && TextStep(ss, es, t, trs, n - 1) && SmearFree(ss, es, t, n - 1);
      StepShowsText(ss[n - 1], es[n - 1], t, trs[n - 1]);
    }
  }

  // ----- A stream of characters after a clear -----

  ghost function PutAll(s: State, cs: string): (s': State)
    requires Ok(s)
    ensures Ok(s') && s'.active == s.active
    decreases |cs|
  {
    if cs == [] then s
    else
      var p := PutAll(s, cs[..|cs| - 1]);
      StepKeepsOk(p, Put(cs[|cs| - 1]));
      Step(p, Put(cs[|cs| - 1]))
  }

  function TypedAll(tr: Text, cs: string): (tr': Text)
    requires tr.rows != []
    ensures tr'.rows != []
    decreases |cs|
  {
    if cs == [] then tr else Typed(TypedAll(tr, cs[..|cs| - 1]), cs[|cs| - 1])
  }

  /** Characters written one by one by a process of terminal t. */
  ghost function OutAll(s: State, t: nat, cs: string): (s': State)
    requires Ok(s) && t < NUM_TERMINALS
    ensures Ok(s') && s'.active == s.active
    decreases |cs|
  {
    if cs == [] then s
    else
      var p := OutAll(s, t, cs[..|cs| - 1]);
      StepKeepsOk(p, Out(t, cs[|cs| - 1]));
      Step(p, Out(t, cs[|cs| - 1]))
  }

  /** The active terminal's page and the display show this text. */
  ghost predicate ShowsActive(s: State, tr: Text)
    requires Sized(s)
  {
    ShowsOn(s, s.active, tr) && Shows(Display(s), s.xs[s.active], s.ys[s.active], tr)
  }

  lemma PutShowsActive(s: State, c: char, tr: Text)
    requires Ok(s) && ShowsActive(s, tr)
    ensures ShowsActive(PutTo(s, s.active, c), Typed(tr, c))
  {
    var t := s.active;
    ForegroundPut(s, c, t);
    PutShows(Page(s, t), s.xs[t], s.ys[t], c, tr);
    PutShows(Display(s), s.xs[t], s.ys[t], c, tr);
  }

  /** Whatever is printed on the active terminal, the screen is the window on the text so far. */
  lemma {:induction false} PrintedShows(s: State, cs: string, tr: Text)
    requires Ok(s) && ShowsActive(s, tr)
    ensures ShowsActive(PutAll(s, cs), TypedAll(tr, cs))
    decreases |cs|
  {
    if cs != [] {
      PrintedShows(s, cs[..|cs| - 1], tr);
      PutShowsActive(PutAll(s, cs[..|cs| - 1]), cs[|cs| - 1], TypedAll(tr, cs[..|cs| - 1]));
    }
  }

  /** After a clear, in any state, the screen is the window on the text printed since. */
  lemma PrintedAfterClear(s: State, cs: string)
    requires Ok(s)
    ensures Ok(StepClear(s)) && ShowsActive(PutAll(StepClear(s), cs), TypedAll(EMPTY_TEXT, cs))
  {
    StepKeepsOk(s, Clear);
    ClearPages(s, s.active);
    EmptyShows();
    PrintedShows(StepClear(s), cs, EMPTY_TEXT);
  }

  // ----- What a process writes -----

  /** Writing on the active terminal is printing. */
  lemma {:induction false} OutAllIsPutAll(s: State, cs: string)
    requires Ok(s)
    ensures OutAll(s, s.active, cs) == PutAll(s, cs)
    decreases |cs|
  {
    if cs != [] { OutAllIsPutAll(s, cs[..|cs| - 1]); }
  }

  /** No character written by a process of terminal t scrolls its page in the background uncleanly. */
  ghost predicate WritesCleanly(s: State, t: nat, cs: string)
    requires Ok(s) && t < NUM_TERMINALS
  {
    forall i :: 0 <= i < |cs| ==> !Smears(OutAll(s, t, cs[..i]), Out(t, cs[i]), t)
  }

  lemma CleanPrefix(s: State, t: nat, cs: string)
    requires Ok(s) && t < NUM_TERMINALS && cs != [] && WritesCleanly(s, t, cs)
    ensures WritesCleanly(s, t, cs[..|cs| - 1])
    ensures !Smears(OutAll(s, t, cs[..|cs| - 1]), Out(t, cs[|cs| - 1]), t)
  {
    var front := cs[..|cs| - 1];
    forall i | 0 <= i < |front|
      ensures !Smears(OutAll(s, t, front[..i]), Out(t, front[i]), t)
    {
      assert front[..i] == cs[..i];
    }
  }

  /** The page of a terminal that shows a text shows, after a process of terminal t has written a string, the
      text with that string typed, or still the same text if it is another terminal's. */
  lemma {:induction false} WrittenShows(s: State, t: nat, cs: string, u: nat, tr: Text)
    requires Ok(s) && t < NUM_TERMINALS && u < NUM_TERMINALS && ShowsOn(s, u, tr)
    requires u == t ==> t == s.active || WritesCleanly(s, t, cs)
    ensures ShowsOn(OutAll(s, t, cs), u, if u == t then TypedAll(tr, cs) else tr)
    decreases |cs|
  {
    if cs != [] {
      var front, c := cs[..|cs| - 1], cs[|cs| - 1];
      if u == t && t != s.active { CleanPrefix(s, t, cs); }
      WrittenShows(s, t, front, u, tr);
      PutShowsOn(OutAll(s, t, front), t, c, u, if u == t then TypedAll(tr, front) else tr);
    }
  }

  /** On the active terminal the display shows it too. */
  lemma WrittenDisplays(s: State, cs: string, tr: Text)
    requires Ok(s) && ShowsActive(s, tr)
    ensures ShowsActive(OutAll(s, s.active, cs), TypedAll(tr, cs))
  {
    OutAllIsPutAll(s, cs);
    PrintedShows(s, cs, tr);
  }

  /** What is written in the background never shows there. */
  lemma {:induction false} WrittenInBackground(s: State, t: nat, cs: string)
    requires Ok(s) && t < NUM_TERMINALS && t != s.active
    ensures Display(OutAll(s, t, cs)) == Display(s)
    decreases |cs|
  {
    if cs != [] {
      WrittenInBackground(s, t, cs[..|cs| - 1]);
      BackgroundNeverShows(OutAll(s, t, cs[..|cs| - 1]), t, cs[|cs| - 1]);
    }
  }

  function WithoutNewlines(cs: string): string {
    if cs == [] then []
    else
      var c := cs[|cs| - 1];
      WithoutNewlines(cs[..|cs| - 1]) + (if c == '\n' || c == '\r' then [] else [c])
  }

  lemma ConcatTyped(tr: Text, c: char)
    requires tr.rows != []
    ensures Concat(Typed(tr, c).rows) == Concat(tr.rows) + if IsNewline(c) then [] else [c]
  {
    var front, last := tr.rows[..|tr.rows| - 1], LastRow(tr);
    assert tr.rows == front + [last];
    ConcatSnoc(tr.rows, []);
    ConcatSnoc(front, last + [c]);
    ConcatSnoc(front + [last + [c]], []);
    assert WithLast(tr, last + [c]).rows == front + [last + [c]];
    assert Concat(front) + (last + [c]) == Concat(front) + last + [c];
  }

  /** The text that was printed holds every character, in order, and the window is its last 25 rows. */
  lemma {:induction false} TypedHoldsAll(cs: string)
    ensures var tr := TypedAll(EMPTY_TEXT, cs);
      && Concat(tr.rows) == WithoutNewlines(cs)
      && tr.top == if |tr.rows| > NUM_ROWS then |tr.rows| - NUM_ROWS else 0
    decreases |cs|
  {
    if cs == [] {
      var none: seq<string> := [];
      ConcatSnoc(none, []);
      assert EMPTY_TEXT.rows == none + [[]];
    } else {
      TypedHoldsAll(cs[..|cs| - 1]);
      ConcatTyped(TypedAll(EMPTY_TEXT, cs[..|cs| - 1]), cs[|cs| - 1]);
    }
  }

  /** The text with both kinds of newline written alike. */
  function Plain(cs: string): string {
    seq(|cs|, i requires 0 <= i < |cs| => if cs[i] == '\r' then '\n' else cs[i])
  }

  /** The rows of a printed text: its lines, each cut after every 80 characters. */
  function Layout(cs: string): seq<string> {
    CutLines(Lines(Plain(cs)), 80)
  }

  lemma PlainLinesSnoc(cs: string, c: char)
    ensures var ls := Lines(Plain(cs));
      Lines(Plain(cs + [c])) == if IsNewline(c) then ls + [[]] else Longer(ls, c)
  {
    var d := if IsNewline(c) then '\n' else c;
    assert Plain(cs + [c]) == Plain(cs) + [d];
    LinesSnoc(Plain(cs), d);
  }

  lemma TypedRows(tr: Text, c: char)
    requires tr.rows != []
    ensures Typed(tr, c).rows ==
      if IsNewline(c) then tr.rows + [[]]
      else Longer(tr.rows, c) + (if |LastRow(tr)| + 1 == NUM_COLS then [[]] else [])
  {
    assert WithLast(tr, LastRow(tr) + [c]).rows == Longer(tr.rows, c);
  }

  /** Typing adds a character to the last of the lines that are cut into rows. */
  lemma TypedLine(tr: Text, cs: string, c: char)
    requires tr.rows != [] && tr.rows == Layout(cs)
    ensures Typed(tr, c).rows == Layout(cs + [c])
  {
    TypedRows(tr, c);
    PlainLinesSnoc(cs, c);
    CutLinesSnoc(Lines(Plain(cs)), c, NUM_COLS);
  }

  /** The rows break exactly where the lines end or reach 80 characters. */
  lemma {:induction false} TypedIsLaidOut(cs: string)
    ensures TypedAll(EMPTY_TEXT, cs).rows == Layout(cs)
    decreases |cs|
  {
    if cs == [] {
      LinesOne([]);
      assert Plain(cs) == [];
    } else {
      var front, c := cs[..|cs| - 1], cs[|cs| - 1];
      TypedIsLaidOut(front);
      assert cs == front + [c];
      TypedLine(TypedAll(EMPTY_TEXT, front), front, c);
    }
  }

  /** A screenful: the last 25 rows of this layout. */
  function Window(rows: seq<string>): Text {
    Text(rows, if |rows| > 25 then |rows| - 25 else 0)
  }

  lemma TypedIsWindow(cs: string)
    ensures TypedAll(EMPTY_TEXT, cs) == Window(Layout(cs))
  {
    TypedIsLaidOut(cs);
    TypedHoldsAll(cs);
  }

  /** After a clear, in any state, page and display show the last 25 rows of the layout of what the kernel
      prints or the terminal's process writes. */
  lemma WrittenAfterClear(s: State, cs: string)
    requires Ok(s)
    ensures Ok(StepClear(s))
    ensures ShowsActive(PutAll(StepClear(s), cs), Window(Layout(cs)))
    ensures ShowsActive(OutAll(StepClear(s), s.active, cs), Window(Layout(cs)))
  {
    PrintedAfterClear(s, cs);
    TypedIsWindow(cs);
    OutAllIsPutAll(StepClear(s), cs);
  }

  // ----- A run on which a page is smeared -----

  lemma {:induction false} ReachesPrinted(s: State, s': State, cs: string)
    requires Ok(s') && Runs.Reaches(Next, s, s')
    ensures Runs.Reaches(Next, s, PutAll(s', cs))
    decreases |cs|
  {
    if cs != [] {
      ReachesPrinted(s, s', cs[..|cs| - 1]);
      Runs.ReachesNext(Next, s, PutAll(s', cs[..|cs| - 1]), Put(cs[|cs| - 1]), PutAll(s', cs));
    }
  }

  lemma {:induction false} TypedNewlines(n: nat)
    requires n < NUM_ROWS
    ensures TypedAll(EMPTY_TEXT, Repeat('\n', n)) == Text(Repeat([], n + 1), 0)
  {
    if n > 0 {
      TypedNewlines(n - 1);
      assert Repeat('\n', n)[..n - 1] == Repeat('\n', n - 1);
      assert Repeat<string>([], n) + [[]] == Repeat<string>([], n + 1);
    }
  }

  /** One character in the last row. */
  const LOW_TEXT := Repeat('\n', NUM_ROWS - 1) + "a"

  lemma LowText()
    ensures var tr := TypedAll(EMPTY_TEXT, LOW_TEXT);
      |tr.rows| == NUM_ROWS && tr.top == 0 && LastRow(tr) == "a"
  {
    TypedNewlines(NUM_ROWS - 1);
    assert LOW_TEXT[..|LOW_TEXT| - 1] == Repeat('\n', NUM_ROWS - 1);
  }

  /** Pages are smeared: from every state in which terminal 0 is active, clear it, print one character in
      its last row, and clear terminal 1. If a process of terminal 0 now ends its row, the page of
      terminal 0 no longer shows its text. */
  lemma PageIsSmearedOnRun(s: State) returns (s': State, tr: Text)
    requires Ok(s) && s.active == 0
    ensures Ok(s') && Runs.Reaches(Next, s, s') && s'.active == 1 && ShowsOn(s', 0, tr)
    ensures Smears(s', Out(0, '\n'), 0) && !ShowsOn(Step(s', Out(0, '\n')), 0, Typed(tr, '\n'))
  {
    tr := TypedAll(EMPTY_TEXT, LOW_TEXT);
    LowText();
    Runs.ReachesSelf<State, Event>(Next, s);
    Runs.ReachesNext(Next, s, s, Clear, StepClear(s));
    PrintedAfterClear(s, LOW_TEXT);
    ReachesPrinted(s, StepClear(s), LOW_TEXT);
    var s1 := PutAll(StepClear(s), LOW_TEXT);
    Runs.ReachesNext(Next, s, s1, Switch(1), Step(s1, Switch(1)));
    SwitchPages(s1, 1, 0);
    var s2 := Step(s1, Switch(1));
    StepKeepsOk(s1, Switch(1));
    Runs.ReachesNext(Next, s, s2, Clear, Step(s2, Clear));
    ClearPages(s2, 0);
    s' := Step(s2, Clear);
    StepKeepsOk(s2, Clear);
    assert Page(s', 0)[NUM_COLS * (NUM_ROWS - 1) + 0] == CellOf(tr, NUM_ROWS - 1, 0) == 'a';
    BackgroundScrollIsExact(s', 0, '\n', tr);
  }
}
