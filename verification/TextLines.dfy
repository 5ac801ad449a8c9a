/** Cutting a text at its newlines, and long lines into pieces. */
module TextLines {
  import opened Sequences

  /** Where the first line ends. */
  function LineEnd(f: string): (e: nat)
    ensures e <= |f|
    ensures forall i :: 0 <= i < e ==> f[i] != '\n'
    ensures e < |f| ==> f[e] == '\n'
  {
    if f == [] || f[0] == '\n' then 0 else LineEnd(f[1..]) + 1
  }

  /** The lines of a file; what follows the last newline is a line too. */
  function Lines(f: string): (ls: seq<string>)
    ensures ls != []
    decreases |f|
  {
    var e := LineEnd(f);
    if e == |f| then [f] else [f[..e]] + Lines(f[e + 1..])
  }

  function Join(ls: seq<string>): string {
    if ls == [] then [] else if |ls| == 1 then ls[0] else ls[0] + "\n" + Join(ls[1..])
  }

  lemma CutsAt(f: string, e: nat)
    requires e < |f| && f[e] == '\n'
    ensures f == f[..e] + "\n" + f[e + 1..]
  {
  }

  /** Lines is the one way to cut a file at its newlines. */
  lemma {:induction false} LinesAreCutAtNewlines(f: string)
    ensures Join(Lines(f)) == f
    ensures forall i :: 0 <= i < |Lines(f)| ==> '\n' !in Lines(f)[i]
    decreases |f|
  {
    var e := LineEnd(f);
    if e < |f| {
      LinesAreCutAtNewlines(f[e + 1..]);
      CutsAt(f, e);
      assert Lines(f)[1..] == Lines(f[e + 1..]);
    }
  }

  lemma LineEndIs(f: string, e: nat)
    requires e <= |f| && (forall i :: 0 <= i < e ==> f[i] != '\n') && (e < |f| ==> f[e] == '\n')
    ensures LineEnd(f) == e
  {
  }

  /** The pieces of one line. */
  function CutLine(line: string, max: nat): seq<string>
    requires max > 0
  {
    if |line| >= max then [line[..max]] + CutLine(line[max..], max) else [line]
  }

  /** The pieces of several lines. */
  function CutLines(ls: seq<string>, max: nat): seq<string>
    requires max > 0
  {
    if ls == [] then [] else CutLines(ls[..|ls| - 1], max) + CutLine(ls[|ls| - 1], max)
  }

  // ----- One character more -----

  /** The lines with a character added to the last one. */
  function Longer(ls: seq<string>, c: char): seq<string>
    requires ls != []
  {
    ls[..|ls| - 1] + [ls[|ls| - 1] + [c]]
  }

  lemma LinesCons(line: string, rest: string)
    requires '\n' !in line
    ensures Lines(line + "\n" + rest) == [line] + Lines(rest)
  {
    var f := line + "\n" + rest;
    LineEndIs(f, |line|);
    assert f[..|line|] == line && f[|line| + 1..] == rest;
  }

  lemma LinesOne(line: string)
    requires '\n' !in line
    ensures Lines(line) == [line]
  {
    LineEndIs(line, |line|);
  }

  lemma {:induction false} LinesSnoc(f: string, c: char)
    ensures Lines(f + [c]) == if c == '\n' then Lines(f) + [[]] else Longer(Lines(f), c)
    decreases |f|
  {
    var e := LineEnd(f);
    var line := f[..e];
    if e == |f| {
      LineSnoc(f, c);
    } else {
      LinesSnoc(f[e + 1..], c);
      CutsAt(f, e);
      LinesConsSnoc(line, f[e + 1..], c);
    }
  }

  lemma LineSnoc(line: string, c: char)
    requires '\n' !in line
    ensures Lines(line + [c]) == if c == '\n' then Lines(line) + [[]] else Longer(Lines(line), c)
  {
    LinesOne(line);
    if c == '\n' {
      LinesCons(line, []);
      LinesOne([]);
      assert line + [c] == line + "\n" + [];
    } else {
      LinesOne(line + [c]);
    }
  }

  lemma LinesConsSnoc(line: string, rest: string, c: char)
    requires '\n' !in line
    requires Lines(rest + [c]) == if c == '\n' then Lines(rest) + [[]] else Longer(Lines(rest), c)
    ensures var f := line + "\n" + rest;
      Lines(f + [c]) == if c == '\n' then Lines(f) + [[]] else Longer(Lines(f), c)
  {
    LinesCons(line, rest);
    LinesCons(line, rest + [c]);
    Associative(line + "\n", rest, [c]);
    LongerCons(line, Lines(rest), c);
  }

  lemma LongerCons(line: string, ls: seq<string>, c: char)
    requires ls != []
    ensures Longer([line] + ls, c) == [line] + Longer(ls, c)
    ensures [line] + ls + [[]] == [line] + (ls + [[]])
  {
  }

  /** A line that grows to a multiple of `max` starts an empty piece. */
  lemma {:induction false} CutLineSnoc(line: string, c: char, max: nat)
    requires max > 0
    ensures var ps := CutLine(line, max);
      && ps != [] && |ps[|ps| - 1]| < max
      && CutLine(line + [c], max) == Longer(ps, c) + (if |ps[|ps| - 1]| + 1 == max then [[]] else [])
    decreases |line|
  {
    if |line| >= max {
      CutLineSnoc(line[max..], c, max);
      assert (line + [c])[..max] == line[..max] && (line + [c])[max..] == line[max..] + [c];
    } else if |line| + 1 == max {
      assert (line + [c])[..max] == line + [c] && (line + [c])[max..] == [];
    }
  }

  lemma LongerAfter(front: seq<string>, ps: seq<string>, c: char)
    requires ps != []
    ensures Longer(front + ps, c) == front + Longer(ps, c)
    ensures (front + ps)[|front| + |ps| - 1] == ps[|ps| - 1]
  {
  }

  /** The pieces of all lines, when a line or a character is added. */
  lemma CutLinesSnoc(ls: seq<string>, c: char, max: nat)
    requires ls != [] && max > 0
    ensures var ps := CutLines(ls, max);
      && ps != [] && CutLines(ls + [[]], max) == ps + [[]]
      && CutLines(Longer(ls, c), max) == Longer(ps, c) + (if |ps[|ps| - 1]| + 1 == max then [[]] else [])
  {
    var front, last := ls[..|ls| - 1], ls[|ls| - 1];
    assert (ls + [[]])[..|ls|] == ls;
    assert Longer(ls, c)[..|ls| - 1] == front;
    CutLineSnoc(last, c, max);
    LongerAfter(CutLines(front, max), CutLine(last, max), c);
  }
}
