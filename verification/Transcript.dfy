/** The text a terminal has shown, as an unbounded list of rows, and the screen as a window on it. */
module Transcript {
  import opened Screen
  import opened ScreenRuns
  import opened Sequences

  /** All rows ever started, the last of them holding the cursor at its end, and how many have been
      scrolled off. */
  datatype Text = Text(rows: seq<string>, top: nat)

  const EMPTY_TEXT := Text([[]], 0)

  function LastRow(tr: Text): string
    requires tr.rows != []
  {
    tr.rows[|tr.rows| - 1]
  }

  /** A row is left as soon as it holds 80 characters. The window has 25 rows. */
  ghost predicate TextOk(tr: Text) {
    && tr.top < |tr.rows| <= tr.top + NUM_ROWS
    && (forall r :: 0 <= r < |tr.rows| ==> |tr.rows[r]| <= NUM_COLS)
    && |LastRow(tr)| < NUM_COLS
  }

  /** Start a row; the window follows. */
  function NewRow(tr: Text): Text
    requires tr.rows != []
  {
    Text(tr.rows + [[]], if |tr.rows| - tr.top == NUM_ROWS then tr.top + 1 else tr.top)
  }

  function WithLast(tr: Text, row: string): Text
    requires tr.rows != []
  {
    tr.(rows := tr.rows[|tr.rows| - 1 := row])
  }

  function Typed(tr: Text, c: char): Text
    requires tr.rows != []
  {
    if IsNewline(c) then NewRow(tr)
    else
      var tr' := WithLast(tr, LastRow(tr) + [c]);
      if |LastRow(tr)| + 1 == NUM_COLS then NewRow(tr') else tr'
  }

  /** A row that a backspace from the row below returns to: it ends before its last column. */
  function Reentered(row: string): (r: string)
    requires |row| <= NUM_COLS
    ensures |r| == NUM_COLS - 1
  {
    if |row| == NUM_COLS then row[..NUM_COLS - 1] else row + Repeat(' ', NUM_COLS - 1 - |row|)
  }

  function Erased(tr: Text): Text
    requires TextOk(tr) && (LastRow(tr) != [] || |tr.rows| - tr.top > 1)
  {
    if LastRow(tr) != [] then WithLast(tr, LastRow(tr)[..|LastRow(tr)| - 1])
    else
      var n := |tr.rows| - 2;
      tr.(rows := tr.rows[..n] + [Reentered(tr.rows[n])])
  }

  // ----- The window -----

  /** The character of a row at a column. */
  function InRow(row: string, c: nat): char {
    if c < |row| then row[c] else ' '
  }

  /** The character at row r and column c of the window. */
  function CellOf(tr: Text, r: nat, c: nat): char {
    if tr.top + r < |tr.rows| then InRow(tr.rows[tr.top + r], c) else ' '
  }

  /** The page is the window, and the cursor stands at the end of the text. */
  ghost predicate Shows(page: seq<char>, x: int, y: int, tr: Text) {
    && |page| == CELLS && TextOk(tr)
    && x == |LastRow(tr)| && y == |tr.rows| - 1 - tr.top
    && forall r: nat, c: nat :: r < NUM_ROWS && c < NUM_COLS ==> page[NUM_COLS * r + c] == CellOf(tr, r, c)
  }

  lemma NewRowShows(page: seq<char>, x: nat, y: nat, n: nat, tr: Text)
    requires |page| == CELLS && tr.top < |tr.rows| <= tr.top + NUM_ROWS
    requires forall r :: 0 <= r < |tr.rows| ==> |tr.rows[r]| <= NUM_COLS
    requires y == |tr.rows| - 1 - tr.top && n == |LastRow(tr)|
    requires forall r: nat, c: nat :: r < NUM_ROWS && c < NUM_COLS ==> page[NUM_COLS * r + c] == CellOf(tr, r, c)
    ensures var page' := if y == NUM_ROWS - 1 then PageBlanked(PageUp(page), n) else page;
      Shows(page', 0, if y == NUM_ROWS - 1 then y else y + 1, NewRow(tr))
  {
    var page' := if y == NUM_ROWS - 1 then PageBlanked(PageUp(page), n) else page;
    var tr' := NewRow(tr);
    forall r: nat, c: nat | r < NUM_ROWS && c < NUM_COLS
      ensures page'[NUM_COLS * r + c] == CellOf(tr', r, c)
    {
      if y == NUM_ROWS - 1 {
        if r < NUM_ROWS - 1 {
          assert CellOf(tr', r, c) == CellOf(tr, r + 1, c);
        } else {
          assert CellOf(tr, r, c) == InRow(LastRow(tr), c);
        }
      } else {
        assert CellOf(tr', r, c) == CellOf(tr, r, c);
      }
    }
  }

  lemma WriteShows(page: seq<char>, x: nat, y: nat, ch: char, tr: Text)
    requires Shows(page, x, y, tr)
    ensures var page', tr' := page[NUM_COLS * y + x := ch], WithLast(tr, LastRow(tr) + [ch]);
      forall r: nat, c: nat :: r < NUM_ROWS && c < NUM_COLS ==> page'[NUM_COLS * r + c] == CellOf(tr', r, c)
  {
    var page', tr' := page[NUM_COLS * y + x := ch], WithLast(tr, LastRow(tr) + [ch]);
    forall r: nat, c: nat | r < NUM_ROWS && c < NUM_COLS
      ensures page'[NUM_COLS * r + c] == CellOf(tr', r, c)
    {
      if r == y && c == x {
      } else {
        assert NUM_COLS * r + c != NUM_COLS * y + x;
        assert CellOf(tr', r, c) == CellOf(tr, r, c);
      }
    }
  }

  /** Putting a character on the page is typing it. */
  lemma PutShows(page: seq<char>, x: nat, y: nat, ch: char, tr: Text)
    requires Shows(page, x, y, tr)
    ensures var tr' := Typed(tr, ch);
      Shows(PagePut(page, x, y, ch), |LastRow(tr')|, |tr'.rows| - 1 - tr'.top, tr')
  {
    if IsNewline(ch) {
      NewRowShows(page, x, y, x, tr);
    } else {
      WriteShows(page, x, y, ch, tr);
      if x == NUM_COLS - 1 {
        NewRowShows(page[NUM_COLS * y + x := ch], x, y, NUM_COLS, WithLast(tr, LastRow(tr) + [ch]));
      }
    }
  }

  /** A backspace on the page erases the last character of the text. */
  lemma BackShows(page: seq<char>, x: nat, y: nat, tr: Text)
    requires Shows(page, x, y, tr) && (x > 0 || y > 0)
    ensures var tr' := Erased(tr);
      && Shows(page[NUM_COLS * y + x - 1 := ' '], |LastRow(tr')|, |tr'.rows| - 1 - tr'.top, tr')
      && NUM_COLS * y + x - 1 == NUM_COLS * (|tr'.rows| - 1 - tr'.top) + |LastRow(tr')|
  {
    var page', tr' := page[NUM_COLS * y + x - 1 := ' '], Erased(tr);
    forall r: nat, c: nat | r < NUM_ROWS && c < NUM_COLS
      ensures page'[NUM_COLS * r + c] == CellOf(tr', r, c)
    {
      assert page[NUM_COLS * r + c] == CellOf(tr, r, c);
    }
  }

  lemma EmptyShows()
    ensures Shows(Repeat(' ', CELLS), 0, 0, EMPTY_TEXT)
  {
  }
}
