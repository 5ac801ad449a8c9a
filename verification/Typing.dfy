/** What every key does, from the keyboard to the line and the screen. */
module Typing {
  import S = Screen
  import ScreenRuns
  import opened ScreenText
  import opened Transcript
  import opened LineEditor
  import opened LineRuns
  import opened Sequences

  /** The active terminal's page and the display show the text, and its buffer holds the line. */
  ghost predicate Editing(e: State, tr: Text, line: string) {
    Ok(e) && ShowsActive(e.screen, tr) && Holds(e, e.screen.active, line)
  }

  /** A key for an editing command. */
  predicate IsCommand(key: char, ctrl: bool) {
    key == '\U{08}' || key == '\n' || key == '\r' || (ctrl && (key == 'l' || key == 'L'))
  }

  lemma EditingStays(e: State, ev: Event, e': State, tr: Text, line: string)
    requires Editing(e, tr, line) && ev.Key? && e' == Step(e, ev)
    ensures Ok(e') && e'.screen.active == e.screen.active
    ensures Holds(e', e.screen.active, LineAfter(e, ev, e.screen.active, line))
  {
    StepHoldsLine(e, ev, e.screen.active, line);
  }

  /** A printable key is shown at the cursor and added to the line. */
  lemma PrintableKey(e: State, key: char, ctrl: bool, tr: Text, line: string)
    requires Editing(e, tr, line) && !IsCommand(key, ctrl) && key != '\0' && |line| < 128
    ensures Editing(Step(e, Key(key, ctrl, false)), Typed(tr, key), line + [key])
  {
    EditingStays(e, Key(key, ctrl, false), Step(e, Key(key, ctrl, false)), tr, line);
    PutShowsActive(e.screen, key, tr);
  }

  /** A full line takes no further key, and keys without a character and function keys do nothing at all. */
  lemma IgnoredKey(e: State, key: char, ctrl: bool, fn: bool, tr: Text, line: string)
    requires Editing(e, tr, line) && !IsCommand(key, ctrl) && (key == '\0' || fn || |line| == 128)
    ensures Step(e, Key(key, ctrl, fn)) == e
  {
  }

  /** Enter starts a row, hands the line over to the reader and begins an empty one. */
  lemma EnterKey(e: State, key: char, ctrl: bool, fn: bool, tr: Text, line: string)
    requires Editing(e, tr, line) && (key == '\n' || key == '\r')
    ensures var e' := Step(e, Key(key, ctrl, fn));
      && Editing(e', NewRow(tr), [])
      && e'.enter == PaddedLine(line) && e'.flags == e.flags[e.screen.active := true]
  {
    EditingStays(e, Key(key, ctrl, fn), Step(e, Key(key, ctrl, fn)), tr, line);
    PutShowsActive(e.screen, key, tr);
  }

  lemma BackShowsActive(s: S.State, tr: Text)
    requires S.Ok(s) && S.CanBack(s) && ShowsActive(s, tr)
    ensures ShowsActive(S.StepBack(s), Erased(tr))
  {
    var t := s.active;
    ScreenRuns.BackPages(s, t);
    BackShows(ScreenRuns.Page(s, t), s.xs[t], s.ys[t], tr);
    BackShows(ScreenRuns.Display(s), s.xs[t], s.ys[t], tr);
  }

  /** A backspace erases the last character of the line, on the screen too; on an empty line it changes
      neither. */
  lemma BackspaceKey(e: State, ctrl: bool, fn: bool, tr: Text, line: string)
    requires Editing(e, tr, line)
    ensures line == [] ==> Editing(Step(e, Key('\U{08}', ctrl, fn)), tr, [])
    ensures line != [] ==>
      && (LastRow(tr) != [] || |tr.rows| - tr.top > 1)
      && Editing(Step(e, Key('\U{08}', ctrl, fn)), Erased(tr), line[..|line| - 1])
  {
    EditingStays(e, Key(BACKSPACE, ctrl, fn), Step(e, Key(BACKSPACE, ctrl, fn)), tr, line);
    if line != [] {
      assert e.pos[e.screen.active] <= S.NUM_COLS * e.screen.ys[e.screen.active] + e.screen.xs[e.screen.active];
      BackShowsActive(e.screen, tr);
    }
  }

  /** Control-L clears the screen and the line. */
  lemma ClearKey(e: State, key: char, fn: bool, tr: Text, line: string)
    requires Editing(e, tr, line) && (key == 'l' || key == 'L')
    ensures Editing(Step(e, Key(key, true, fn)), EMPTY_TEXT, [])
  {
    EditingStays(e, Key(key, true, fn), Step(e, Key(key, true, fn)), tr, line);
    ScreenRuns.ClearPages(e.screen, e.screen.active);
    EmptyShows();
  }

  /** A backspace undoes a printable key, unless that key has filled its row. */
  lemma BackspaceUndoesKey(tr: Text, key: char)
    requires TextOk(tr) && key != '\n' && key != '\r' && |LastRow(tr)| + 1 < 80
    ensures TextOk(Typed(tr, key)) && Erased(Typed(tr, key)) == tr
  {
    var tr' := Typed(tr, key);
    assert LastRow(tr') == LastRow(tr) + [key];
    assert LastRow(tr')[..|LastRow(tr)|] == LastRow(tr);
    assert tr'.rows[|tr.rows| - 1 := LastRow(tr)] == tr.rows;
  }

  /** A word of printable characters. */
  predicate IsWord(w: string) {
    forall i :: 0 <= i < |w| ==> w[i] != '\0' && !IsCommand(w[i], false)
  }

  /** What is printed or written is put on the screen as it is, a switch switches it, and a line read or
      dropped leaves it alone. */
  lemma OtherEvents(e: State, ev: Event)
    requires Ok(e) && CanStep(ev) && !ev.Key?
    ensures Step(e, ev).screen ==
      match ev
      case Print(c) => S.PutTo(e.screen, e.screen.active, c)
      case Out(t, c) => S.PutTo(e.screen, t, c)
      case Switch(new_) => S.StepSwitch(e.screen, new_)
      case _ => e.screen
  {
  }

  /** The keys of a word pressed one by one. */
  ghost function Keyed(e: State, w: string): (e': State)
    requires Ok(e)
    ensures Ok(e')
    decreases |w|
  {
    if w == [] then e
    else
      var p := Keyed(e, w[..|w| - 1]);
      StepKeepsOk(p, Key(w[|w| - 1], false, false));
      Step(p, Key(w[|w| - 1], false, false))
  }

  lemma KeyedSnoc(e: State, w: string, key: char)
    requires Ok(e)
    ensures Keyed(e, w + [key]) == Step(Keyed(e, w), Key(key, false, false))
  {
    assert (w + [key])[..|w|] == w;
  }

  lemma OneMoreKey(p: State, tr: Text, line: string, w: string, key: char)
    requires tr.rows != [] && Editing(p, TypedAll(tr, w), line + w)
    requires !IsCommand(key, false) && key != '\0' && |line| + |w| < 128
    ensures Editing(Step(p, Key(key, false, false)), TypedAll(tr, w + [key]), line + (w + [key]))
  {
    PrintableKey(p, key, false, TypedAll(tr, w), line + w);
    assert (w + [key])[..|w|] == w;
    Associative(line, w, [key]);
  }

  /** A word that fits the line is shown and added to the line as it is. */
  lemma {:induction false} WordIsTyped(e: State, tr: Text, line: string, w: string)
    requires Editing(e, tr, line) && IsWord(w) && |line| + |w| <= 128
    ensures Editing(Keyed(e, w), TypedAll(tr, w), line + w)
    decreases |w|
  {
    if w == [] {
      assert line + w == line;
    } else {
      var front, key := w[..|w| - 1], w[|w| - 1];
      assert w == front + [key];
      WordIsTyped(e, tr, line, front);
      KeyedSnoc(e, front, key);
      OneMoreKey(Keyed(e, front), tr, line, front, key);
    }
  }
}
