/** The keyboard handler and the terminal read on their own mutable buffers. Both are proved to carry out
    the steps of LineEditor. */
module LineEditorCode {
  import S = Screen
  import opened ScreenCode
  import opened LineEditor
  import opened LineRuns
  import opened Sequences

  /** The copy stops at the first zero or after n characters. */
  lemma {:induction false} UpToZeroIs(b: string, n: nat, i: nat)
    requires i <= n && i <= |b| && forall j :: 0 <= j < i ==> b[j] != '\0'
    requires i == n || i == |b| || b[i] == '\0'
    ensures UpToZero(b, n) == b[..i]
  {
    if i > 0 {
      UpToZeroIs(b[1..], n - 1, i - 1);
      assert b[..i] == [b[0]] + b[1..][..i - 1];
    }
  }

  class Terminal {
    const display: Display
    const inputBuffer: array<char>
    const currBuffPos: array<int>
    const enterBuffer: array<char>
    const enterFlag: array<bool>

    ghost predicate Valid()
      reads this, display, display.mem, display.screenX, display.screenY
      reads inputBuffer, currBuffPos, enterBuffer, enterFlag
    {
      && display.Valid()
      && inputBuffer != enterBuffer && display.mem != inputBuffer && display.mem != enterBuffer
      && currBuffPos != display.screenX && currBuffPos != display.screenY
      && Ok(Abs())
    }

    ghost function Abs(): State
      reads this, display, display.mem, display.screenX, display.screenY
      reads inputBuffer, currBuffPos, enterBuffer, enterFlag
    {
      State(display.Abs(), inputBuffer[..], currBuffPos[..], enterBuffer[..], enterFlag[..])
    }

    constructor (display: Display)
      requires display.Valid() && S.Ok(display.Abs())
      ensures Valid() && this.display == display
      ensures forall t :: 0 <= t < NUM_TERMINALS ==> Holds(Abs(), t, []) && !Abs().flags[t]
    {
      this.display := display;
      inputBuffer := new char[1 + NUM_TERMINALS * BUFFER_SIZE](_ => '\0');
      currBuffPos := new int[NUM_TERMINALS](_ => 0);
      enterBuffer := new char[BUFFER_SIZE](_ => '\0');
      enterFlag := new bool[NUM_TERMINALS](_ => false);
      new;
      assert forall i :: 0 <= i < 1 + NUM_TERMINALS * BUFFER_SIZE ==> inputBuffer[i] == '\0';
      forall t | 0 <= t < NUM_TERMINALS
        ensures Buffer(inputBuffer[..], t) == PaddedLine([])
      {
      }
    }

    /** Zero the buffer of a terminal. */
    method ZeroBuffer(t: nat)
      requires inputBuffer.Length == 1 + NUM_TERMINALS * BUFFER_SIZE && t < NUM_TERMINALS
      modifies inputBuffer
      ensures inputBuffer[..] == Zeroed(old(inputBuffer[..]), t)
    {
      var i := 0;
      while i < BUFFER_SIZE
        invariant i <= BUFFER_SIZE
        invariant forall j :: Cell(t, 0) <= j < Cell(t, i) ==> inputBuffer[j] == '\0'
        invariant forall j :: 0 <= j < Cell(t, 0) || Cell(t, i) <= j < inputBuffer.Length ==>
          inputBuffer[j] == old(inputBuffer[j])
      {
        inputBuffer[Cell(t, i)] := '\0';
        i := i + 1;
      }
    }

    /** Move the buffer of a terminal to the enter buffer. */
    method MoveToEnterBuffer(t: nat)
      requires inputBuffer.Length == 1 + NUM_TERMINALS * BUFFER_SIZE && t < NUM_TERMINALS
      requires enterBuffer.Length == BUFFER_SIZE && enterBuffer != inputBuffer
      modifies inputBuffer, enterBuffer
      ensures enterBuffer[..] == Buffer(old(inputBuffer[..]), t)
      ensures inputBuffer[..] == Zeroed(old(inputBuffer[..]), t)
    {
      var i := 0;
      while i < BUFFER_SIZE
        invariant i <= BUFFER_SIZE
        invariant forall j :: 0 <= j < i ==> enterBuffer[j] == old(inputBuffer[Cell(t, j)])
        invariant forall j :: Cell(t, 0) <= j < Cell(t, i) ==> inputBuffer[j] == '\0'
        invariant forall j :: 0 <= j < Cell(t, 0) || Cell(t, i) <= j < inputBuffer.Length ==>
          inputBuffer[j] == old(inputBuffer[j])
      {
        enterBuffer[i] := inputBuffer[Cell(t, i)];
        inputBuffer[Cell(t, i)] := '\0';
        i := i + 1;
      }
    }

    /** A process ends: its terminal's unread input is dropped. */
    method ClearBuffer(t: nat)
      requires Valid() && t < NUM_TERMINALS
      modifies inputBuffer, currBuffPos
      ensures Valid() && Abs() == Step(old(Abs()), Event.ClearBuffer(t))
    {
      currBuffPos[t] := 0;
      ZeroBuffer(t);
    }

    method TerminalRead(t: nat, buf: array<char>, nbytes: nat) returns (r: nat)
      requires Valid() && t < NUM_TERMINALS && enterFlag[t]
      requires AtMost(nbytes, BUFFER_SIZE) < buf.Length
      requires buf != inputBuffer && buf != enterBuffer && buf != display.mem
      modifies enterFlag, buf
      ensures Valid() && Abs() == Step(old(Abs()), ReadLine(t))
      ensures r <= buf.Length && buf[..r] == ReadResult(old(enterBuffer[..]), nbytes)
    {
      enterFlag[t] := false;
      var cnt := if nbytes > BUFFER_SIZE then BUFFER_SIZE else nbytes;
      var i := 0;
      while i < cnt
        modifies buf
        invariant i <= cnt
        invariant buf[..i] == enterBuffer[..i] && forall j :: 0 <= j < i ==> enterBuffer[j] != '\0'
      {
        buf[i] := enterBuffer[i];
        if enterBuffer[i] == '\0' {
          break;
        }
        i := i + 1;
      }
      UpToZeroIs(enterBuffer[..], cnt, i);
      buf[i] := '\n';
      r := i + 1;
    }

    method BackspaceKey()
      requires Valid()
      modifies inputBuffer, currBuffPos, display.mem, display.screenX, display.screenY
      ensures Valid() && Abs() == Step(old(Abs()), Key(BACKSPACE, false, false))
    {
      ghost var e := Abs();
      StepKeepsOk(e, Key(BACKSPACE, false, false));
      var t := display.active;
      assert e.pos[t] <= S.NUM_COLS * e.screen.ys[t] + e.screen.xs[t];
      inputBuffer[Cell(t, currBuffPos[t] - 1)] := '\0';
      currBuffPos[t] := currBuffPos[t] - 1;
      if currBuffPos[t] < 0 {
        currBuffPos[t] := 0;
        assert currBuffPos[..] == e.pos;
      } else {
        display.Backspace();
      }
    }

    method EnterKey(key: char)
      requires Valid() && (key == '\n' || key == '\r')
      modifies inputBuffer, currBuffPos, enterBuffer, enterFlag, display.mem, display.screenX, display.screenY
      ensures Valid() && Abs() == Step(old(Abs()), Key(key, false, false))
    {
      StepKeepsOk(Abs(), Key(key, false, false));
      var t := display.active;
      enterFlag[t] := true;
      MoveToEnterBuffer(t);
      display.Putc(key);
      currBuffPos[t] := 0;
    }

    method ClearKey(key: char)
      requires Valid() && (key == 'l' || key == 'L')
      modifies inputBuffer, currBuffPos, display.mem, display.screenX, display.screenY
      ensures Valid() && Abs() == Step(old(Abs()), Key(key, true, false))
    {
      StepKeepsOk(Abs(), Key(key, true, false));
      var t := display.active;
      display.Clear();
      ZeroBuffer(t);
      currBuffPos[t] := 0;
    }

    method TypeKey(key: char)
      requires Valid() && ActionOf(key, false, false, currBuffPos[display.active]) == Type
      modifies inputBuffer, currBuffPos, display.mem, display.screenX, display.screenY
      ensures Valid() && Abs() == Step(old(Abs()), Key(key, false, false))
    {
      StepKeepsOk(Abs(), Key(key, false, false));
      var t := display.active;
      inputBuffer[Cell(t, currBuffPos[t])] := key;
      currBuffPos[t] := currBuffPos[t] + 1;
      display.Putc(key);
    }

    /** A key was pressed: `fn` says whether it is a function or modifier key, `ctrl` and `alt` which
        modifiers are held, and `terminal` which terminal the key stands for, if it is one of F1 to F3. */
    method HandleKey(key: char, ctrl: bool, alt: bool, fn: bool, terminal: int, refused: bool)
      requires Valid() && terminal < NUM_TERMINALS
      modifies inputBuffer, currBuffPos, enterBuffer, enterFlag
      modifies display, display.mem, display.screenX, display.screenY
      ensures Valid()
      ensures Abs() ==
        if alt && terminal >= 0 then (if refused then old(Abs()) else Step(old(Abs()), Switch(terminal)))
        else Step(old(Abs()), Key(key, ctrl, fn))
    {
      ghost var e := Abs();
      var t := display.active;
      if alt && terminal >= 0 {
        StepKeepsOk(e, Switch(terminal));
        display.ChangeVideoMem(t, terminal, refused);
      } else if key == BACKSPACE {
        BackspaceKey();
      } else if key == '\n' || key == '\r' {
        EnterKey(key);
      } else if (key == 'l' || key == 'L') && ctrl {
        ClearKey(key);
      } else if !fn && currBuffPos[t] < BUFFER_SIZE {
        if key != '\0' {
          TypeKey(key);
        }
      }
    }
  }
}
