/** What grep prints: the lines of a file that contain the pattern, in order. */
module Grep {
  import opened Sequences
  import opened TextLines

  predicate OccursAt(line: string, s: string, k: nat) {
    k + |s| <= |line| && line[k..k + |s|] == s
  }

  /** The line contains the pattern. An empty pattern matches nothing. */
  predicate Matches(line: string, s: string) {
    s != [] && exists k :: 0 <= k < |line| && OccursAt(line, s, k)
  }

  /** What is printed for a line. */
  function Report(line: string, s: string, fname: string): string {
    if Matches(line, s) then fname + ":" + line + "\n" else []
  }

  function ReportAll(ls: seq<string>, s: string, fname: string): string {
    if ls == [] then [] else Report(ls[0], s, fname) + ReportAll(ls[1..], s, fname)
  }

  function GrepOutput(f: string, s: string, fname: string): string {
    ReportAll(Lines(f), s, fname)
  }

  // ----- Files with long lines -----

  /** What a search through a buffer of `max` characters takes for lines: a line of at least that many
      characters is cut into pieces of the buffer's size. */
  function Pieces(f: string, max: nat): (ps: seq<string>)
    requires max > 0
    ensures ps != []
    decreases |f|
  {
    var e := LineEnd(f);
    if e >= max then [f[..max]] + Pieces(f[max..], max)
    else if e == |f| then [f]
    else [f[..e]] + Pieces(f[e + 1..], max)
  }

  function PieceOutput(f: string, s: string, fname: string, max: nat): string
    requires max > 0
  {
    ReportAll(Pieces(f, max), s, fname)
  }

  lemma ReportOne(line: string, ls: seq<string>, s: string, fname: string)
    ensures ReportAll([line] + ls, s, fname) == Report(line, s, fname) + ReportAll(ls, s, fname)
  {
    assert ([line] + ls)[1..] == ls;
  }

  /** A line on its own, with or without an empty piece after it. */
  lemma ReportSingle(line: string, s: string, fname: string)
    ensures ReportAll([line], s, fname) == Report(line, s, fname)
    ensures ReportAll([line, []], s, fname) == Report(line, s, fname)
  {
    var empty: seq<string> := [[]];
    ReportOne(line, [], s, fname);
    ReportOne([], [], s, fname);
    ReportOne(line, empty, s, fname);
    assert [line] + [] == [line] && empty + [] == empty && [line] + empty == [line, []];
  }

  /** A file that starts with a line shorter than the buffer, and a newline. */
  lemma PieceCons(line: string, rest: string, s: string, fname: string, max: nat)
    requires '\n' !in line && |line| < max
    ensures Pieces(line + "\n" + rest, max) == [line] + Pieces(rest, max)
    ensures PieceOutput(line + "\n" + rest, s, fname, max) == Report(line, s, fname) + PieceOutput(rest, s, fname, max)
  {
    var f := line + "\n" + rest;
    LineEndIs(f, |line|);
    assert f[..|line|] == line && f[|line| + 1..] == rest;
    ReportOne(line, Pieces(rest, max), s, fname);
  }

  /** A file that fills the buffer before its first newline. */
  lemma PieceFull(piece: string, rest: string, s: string, fname: string, max: nat)
    requires '\n' !in piece && |piece| == max > 0
    ensures Pieces(piece + rest, max) == [piece] + Pieces(rest, max)
    ensures PieceOutput(piece + rest, s, fname, max) == Report(piece, s, fname) + PieceOutput(rest, s, fname, max)
  {
    var f := piece + rest;
    EndAfter(piece, rest);
    assert f[..max] == piece && f[max..] == rest;
    ReportOne(piece, Pieces(rest, max), s, fname);
  }

  lemma EndAfter(piece: string, rest: string)
    requires '\n' !in piece
    ensures LineEnd(piece + rest) >= |piece|
  {
    var f := piece + rest;
    forall i | 0 <= i < |piece| ensures f[i] != '\n' {
      assert f[i] == piece[i] && piece[i] in piece;
    }
  }

  /** A file that is a single line without a newline and fits the buffer. */
  lemma PieceLast(line: string, s: string, fname: string, max: nat)
    requires '\n' !in line && |line| <= max && max > 0
    ensures PieceOutput(line, s, fname, max) == Report(line, s, fname)
  {
    LineEndIs(line, |line|);
    ReportSingle(line, s, fname);
    if |line| == max {
      assert line[..max] == line && line[max..] == [];
      assert Pieces([], max) == [[]];
      assert Pieces(line, max) == [line, []];
    } else {
      assert Pieces(line, max) == [line];
    }
  }

  // ----- When the pieces print what the lines would -----

  lemma {:induction false} PiecesOfLine(line: string, max: nat)
    requires '\n' !in line && max > 0
    ensures Pieces(line, max) == CutLine(line, max)
    decreases |line|
  {
    LineEndIs(line, |line|);
    if |line| >= max { PiecesOfLine(line[max..], max); }
  }

  lemma TakenFirst(piece: string, more: string, rest: string)
    ensures piece + more + "\n" + rest == piece + (more + "\n" + rest)
  {
  }

  lemma {:induction false} PiecesCutLines(line: string, rest: string, max: nat)
    requires '\n' !in line && max > 0
    ensures Pieces(line + "\n" + rest, max) == CutLine(line, max) + Pieces(rest, max)
    decreases |line|
  {
    if |line| < max {
      PieceCons(line, rest, [], [], max);
    } else {
      var piece, more := line[..max], line[max..];
      PiecesCutLines(more, rest, max);
      PieceFull(piece, more + "\n" + rest, [], [], max);
      TakenFirst(piece, more, rest);
      assert line == piece + more;
      Associative([piece], CutLine(more, max), Pieces(rest, max));
    }
  }

  /** Where a piece of a line matches, the line does. */
  lemma PieceMatches(line: string, from: nat, end: nat, s: string)
    requires from <= end <= |line|
    ensures Matches(line[from..end], s) ==> Matches(line, s)
  {
    if Matches(line[from..end], s) {
      var k :| 0 <= k < |line[from..end]| && OccursAt(line[from..end], s, k);
      SliceOfSlice(line, from, end, k, |s|);
      assert OccursAt(line, s, from + k);
    }
  }

  /** The lines of a list that match. */
  function Printed(ls: seq<string>, s: string): seq<string> {
    if ls == [] then [] else (if Matches(ls[0], s) then [ls[0]] else []) + Printed(ls[1..], s)
  }

  lemma PrintedCons(x: string, ls: seq<string>, s: string)
    ensures Printed([x] + ls, s) == (if Matches(x, s) then [x] else []) + Printed(ls, s)
  {
    assert ([x] + ls)[1..] == ls;
  }

  lemma {:induction false} PrintedAppend(a: seq<string>, b: seq<string>, s: string)
    ensures Printed(a + b, s) == Printed(a, s) + Printed(b, s)
  {
    if a == [] {
      assert a + b == b && Printed(a, s) == [];
    } else {
      var x, rest := a[0], a[1..];
      PrintedAppend(rest, b, s);
      assert a == [x] + rest;
      Associative([x], rest, b);
      PrintedCons(x, rest + b, s);
      Associative(if Matches(x, s) then [x] else [], Printed(rest, s), Printed(b, s));
    }
  }

  /** A line that does not match prints nothing in pieces, and one that fits prints itself. */
  lemma {:induction false} CutLinePrints(line: string, s: string, max: nat)
    requires max > 0
    ensures !Matches(line, s) ==> Printed(CutLine(line, max), s) == []
    ensures |line| <= max ==> Printed(CutLine(line, max), s) == Printed([line], s)
    decreases |line|
  {
    if |line| >= max {
      CutLinePrints(line[max..], s, max);
      PieceMatches(line, 0, max, s);
      PieceMatches(line, max, |line|, s);
      assert line[0..max] == line[..max] && line[max..|line|] == line[max..];
      assert CutLine(line, max)[1..] == CutLine(line[max..], max);
      if |line| == max { assert line[..max] == line && CutLine([], max) == [[]]; }
    }
  }

  /** No matching line is longer than the buffer. */
  predicate MatchesFit(ls: seq<string>, s: string, max: nat) {
    forall i :: 0 <= i < |ls| && Matches(ls[i], s) ==> |ls[i]| <= max
  }

  lemma PrintedAlike(a: seq<string>, b: seq<string>, c: seq<string>, d: seq<string>, s: string)
    requires Printed(a, s) == Printed(c, s) && Printed(b, s) == Printed(d, s)
    ensures Printed(a + b, s) == Printed(c + d, s)
  {
    PrintedAppend(a, b, s);
    PrintedAppend(c, d, s);
  }

  lemma PiecesPrintStep(line: string, rest: string, s: string, max: nat)
    requires max > 0 && '\n' !in line && (Matches(line, s) ==> |line| <= max)
    requires Printed(Pieces(rest, max), s) == Printed(Lines(rest), s)
    ensures Printed(Pieces(line + "\n" + rest, max), s) == Printed([line] + Lines(rest), s)
  {
    CutLinePrints(line, s, max);
    PiecesCutLines(line, rest, max);
    PrintedCons(line, [], s);
    assert [line] + [] == [line];
    PrintedAlike(CutLine(line, max), Pieces(rest, max), [line], Lines(rest), s);
  }

  lemma PiecesPrintLine(line: string, s: string, max: nat)
    requires max > 0 && '\n' !in line && (Matches(line, s) ==> |line| <= max)
    ensures Printed(Pieces(line, max), s) == Printed([line], s)
  {
    PiecesOfLine(line, max);
    CutLinePrints(line, s, max);
    PrintedCons(line, [], s);
    assert [line] + [] == [line];
  }

  lemma {:induction false} PiecesPrintLines(f: string, s: string, max: nat)
    requires max > 0 && MatchesFit(Lines(f), s, max)
    ensures Printed(Pieces(f, max), s) == Printed(Lines(f), s)
    decreases |f|
  {
    var e := LineEnd(f);
    var line := f[..e];
    if e == |f| {
      assert line == f && Lines(f)[0] == f;
      PiecesPrintLine(f, s, max);
    } else {
      var rest := f[e + 1..];
      FitsApart(line, Lines(rest), s, max);
      PiecesPrintLines(rest, s, max);
      CutsAt(f, e);
      PiecesPrintStep(line, rest, s, max);
    }
  }

  lemma {:induction false} PiecesFit(f: string, max: nat)
    requires max > 0
    ensures forall p :: p in Pieces(f, max) ==> |p| <= max && '\n' !in p
    decreases |f|
  {
    var e := LineEnd(f);
    if e >= max {
      PiecesFit(f[max..], max);
    } else if e < |f| {
      PiecesFit(f[e + 1..], max);
    }
  }

  lemma FitsApart(line: string, ls: seq<string>, s: string, max: nat)
    ensures MatchesFit([line] + ls, s, max) ==> (Matches(line, s) ==> |line| <= max) && MatchesFit(ls, s, max)
  {
    var all := [line] + ls;
    if MatchesFit(all, s, max) {
      assert all[0] == line;
      forall i | 0 <= i < |ls| && Matches(ls[i], s) ensures |ls[i]| <= max {
        assert all[i + 1] == ls[i];
      }
    }
  }

  function Print(xs: seq<string>, fname: string): string {
    if xs == [] then [] else fname + ":" + xs[0] + "\n" + Print(xs[1..], fname)
  }

  lemma {:induction false} ReportsPrint(ls: seq<string>, s: string, fname: string)
    ensures ReportAll(ls, s, fname) == Print(Printed(ls, s), fname)
  {
    if ls != [] {
      ReportsPrint(ls[1..], s, fname);
      if Matches(ls[0], s) {
        assert Printed(ls, s)[1..] == Printed(ls[1..], s);
      } else {
        assert [] + Printed(ls[1..], s) == Printed(ls[1..], s);
      }
    }
  }

  predicate NoNewlines(xs: seq<string>) {
    forall i :: 0 <= i < |xs| ==> '\n' !in xs[i]
  }

  /** What is printed tells which lines were printed. */
  lemma {:induction false} PrintIsInjective(xs: seq<string>, ys: seq<string>, fname: string)
    requires '\n' !in fname && NoNewlines(xs) && NoNewlines(ys)
    requires Print(xs, fname) == Print(ys, fname)
    ensures xs == ys
  {
    if xs != [] && ys != [] {
      var x, y := fname + ":" + xs[0], fname + ":" + ys[0];
      var p, q := Print(xs[1..], fname), Print(ys[1..], fname);
      assert Print(xs, fname) == x + "\n" + p && Print(ys, fname) == y + "\n" + q;
      LineEndIs(x + "\n" + p, |x|);
      LineEndIs(y + "\n" + q, |y|);
      assert (x + "\n" + p)[..|x|] == x && (y + "\n" + q)[..|y|] == y;
      assert (x + "\n" + p)[|x| + 1..] == p && (y + "\n" + q)[|y| + 1..] == q;
      assert x[|fname| + 1..] == xs[0] && y[|fname| + 1..] == ys[0];
      PrintIsInjective(xs[1..], ys[1..], fname);
    }
  }

  lemma {:induction false} PrintedAreLines(ls: seq<string>, s: string)
    ensures forall x :: x in Printed(ls, s) <==> x in ls && Matches(x, s)
  {
    if ls != [] {
      PrintedAreLines(ls[1..], s);
      assert ls == [ls[0]] + ls[1..];
    }
  }

  /** A search through a buffer prints exactly the lines that contain the pattern if and only if none of
      these lines is longer than the buffer. */
  lemma PiecesAreExact(f: string, s: string, fname: string, max: nat)
    requires max > 0 && '\n' !in fname
    ensures PieceOutput(f, s, fname, max) == GrepOutput(f, s, fname) <==> MatchesFit(Lines(f), s, max)
  {
    var ls, ps := Lines(f), Pieces(f, max);
    ReportsPrint(ls, s, fname);
    ReportsPrint(ps, s, fname);
    if MatchesFit(ls, s, max) { PiecesPrintLines(f, s, max); }
    if PieceOutput(f, s, fname, max) == GrepOutput(f, s, fname) {
      LinesAreCutAtNewlines(f);
      PiecesFit(f, max);
      PrintedHaveNoNewline(ls, s);
      PrintedHaveNoNewline(ps, s);
      PrintIsInjective(Printed(ps, s), Printed(ls, s), fname);
      PrintedAreLines(ls, s);
      PrintedAreLines(ps, s);
      forall i | 0 <= i < |ls| && Matches(ls[i], s) ensures |ls[i]| <= max {
        assert ls[i] in Printed(ls, s);
      }
    }
  }

  lemma PrintedHaveNoNewline(ls: seq<string>, s: string)
    requires NoNewlines(ls)
    ensures NoNewlines(Printed(ls, s))
  {
    PrintedAreLines(ls, s);
    forall i | 0 <= i < |Printed(ls, s)| ensures '\n' !in Printed(ls, s)[i] {
      assert Printed(ls, s)[i] in Printed(ls, s);
    }
  }

  /** The search does fail: a line one character longer than the buffer that contains the pattern is not
      printed as it is. */
  lemma LongLineIsCut(fname: string, max: nat)
    requires max > 0 && '\n' !in fname
    ensures PieceOutput(Repeat('x', max + 1), "x", fname, max) != GrepOutput(Repeat('x', max + 1), "x", fname)
  {
    var f := Repeat('x', max + 1);
    LineEndIs(f, max + 1);
    assert Lines(f) == [f];
    assert f[0..1] == "x" && OccursAt(f, "x", 0);
    assert Matches(Lines(f)[0], "x");
    PiecesAreExact(f, "x", fname, max);
  }

  // ----- The output, independently -----

  predicate Contains(line: string, s: string) {
    exists k :: 0 <= k <= |line| - |s| && s <= line[k..]
  }

  lemma MatchesIsContains(line: string, s: string)
    ensures Matches(line, s) <==> s != [] && Contains(line, s)
  {
    if Matches(line, s) {
      var k :| 0 <= k < |line| && OccursAt(line, s, k);
      assert line[k..][..|s|] == line[k..k + |s|];
      assert s <= line[k..];
    }
    if s != [] && Contains(line, s) {
      var k :| 0 <= k <= |line| - |s| && s <= line[k..];
      assert line[k..k + |s|] == line[k..][..|s|];
      assert OccursAt(line, s, k);
    }
  }

  lemma CutLinesCons(line: string, ls: seq<string>, max: nat)
    requires max > 0
    ensures CutLines([line] + ls, max) == CutLine(line, max) + CutLines(ls, max)
    decreases |ls|
  {
    if ls == [] {
      assert ([line] + ls)[..0] == [];
    } else {
      var front, last := ls[..|ls| - 1], ls[|ls| - 1];
      assert ([line] + ls)[..|ls|] == [line] + front;
      CutLinesCons(line, front, max);
      Associative(CutLine(line, max), CutLines(front, max), CutLine(last, max));
    }
  }

  /** What the search takes for lines are the lines, cut into pieces. */
  lemma {:induction false} PiecesAreCutLines(f: string, max: nat)
    requires max > 0
    ensures Pieces(f, max) == CutLines(Lines(f), max)
    decreases |f|
  {
    var e := LineEnd(f);
    if e == |f| {
      PiecesOfLine(f, max);
      CutLinesCons(f, [], max);
      assert [f] + [] == Lines(f);
    } else {
      var line, rest := f[..e], f[e + 1..];
      CutsAt(f, e);
      PiecesCutLines(line, rest, max);
      PiecesAreCutLines(rest, max);
      CutLinesCons(line, Lines(rest), max);
    }
  }

  /** A piece that contains the pattern, with the file's name before it. */
  function Printout(piece: string, s: string, fname: string): string {
    if s != [] && Contains(piece, s) then fname + ":" + piece + "\n" else ""
  }

  lemma {:induction false} ReportSnoc(ls: seq<string>, line: string, s: string, fname: string)
    ensures ReportAll(ls + [line], s, fname) == ReportAll(ls, s, fname) + Report(line, s, fname)
    decreases |ls|
  {
    if ls == [] {
      assert ls + [line] == [line];
      ReportSingle(line, s, fname);
    } else {
      assert (ls + [line])[1..] == ls[1..] + [line];
      ReportSnoc(ls[1..], line, s, fname);
      Associative(Report(ls[0], s, fname), ReportAll(ls[1..], s, fname), Report(line, s, fname));
    }
  }

  lemma {:induction false} ReportIsPrintout(ls: seq<string>, s: string, fname: string)
    ensures ReportAll(ls, s, fname) == Concat(seq(|ls|, i requires 0 <= i < |ls| => Printout(ls[i], s, fname)))
    decreases |ls|
  {
    var printed := seq(|ls|, i requires 0 <= i < |ls| => Printout(ls[i], s, fname));
    if ls != [] {
      var front, last := ls[..|ls| - 1], ls[|ls| - 1];
      assert ls == front + [last];
      ReportIsPrintout(front, s, fname);
      ReportSnoc(front, last, s, fname);
      MatchesIsContains(last, s);
      assert printed[..|ls| - 1] == seq(|front|, i requires 0 <= i < |front| => Printout(front[i], s, fname));
    }
  }

  /** The whole output: the lines of the file, those longer than the buffer cut into pieces, and of each that
      contains the pattern the file's name, a colon, the piece and a newline, in order. */
  lemma OutputIs(f: string, s: string, fname: string, max: nat)
    requires max > 0
    ensures var ps := CutLines(Lines(f), max);
      PieceOutput(f, s, fname, max) == Concat(seq(|ps|, i requires 0 <= i < |ps| => Printout(ps[i], s, fname)))
  {
    PiecesAreCutLines(f, max);
    ReportIsPrintout(Pieces(f, max), s, fname);
  }
}
