/** The streaming search of one file: a fixed buffer is refilled from the file, split at newlines in
    place, and its unfinished last line moved down to the front. */
module GrepCode {
  import opened Text
  import opened Grep
  import opened TextLines

  /** An open regular file: reads continue where the last one stopped and are short only at the end. */
  class OpenFile {
    const content: string
    var pos: nat

    constructor (content: string)
      ensures this.content == content && pos == 0
    {
      this.content := content;
      pos := 0;
    }

    method Read(data: array<char>, at: nat, nbytes: nat) returns (cnt: nat)
      requires pos <= |content| && at + nbytes <= data.Length
      modifies this, data
      ensures cnt == (if nbytes <= |content| - old(pos) then nbytes else |content| - old(pos))
      ensures pos == old(pos) + cnt
      ensures data[..] == old(data[..at]) + content[old(pos)..pos] + old(data[at + cnt..])
    {
      cnt := if nbytes <= |content| - pos then nbytes else |content| - pos;
      forall i | at <= i < at + cnt {
        data[i] := content[pos + (i - at)];
      }
      pos := pos + cnt;
    }
  }

  /** Copy the text at an index down to the front of the same buffer. */
  method StrCpyDown(data: array<char>, src: nat, ghost text: string)
    requires HoldsText(data[..], src, text) && src > 0
    modifies data
    ensures HoldsText(data[..], 0, text)
    ensures forall i :: |text| < i < data.Length ==> data[i] == old(data[i])
  {
    ghost var was := data[..];
    var i := 0;
    data[0] := data[src];
    while data[i] != '\0'
      invariant 0 <= i <= |text|
      invariant data[i] == was[src + i]
      invariant data[..i] == text[..i]
      invariant forall j :: i < j < data.Length ==> data[j] == was[j]
      decreases |text| - i
    {
      if i < |text| { TextAt(was, src, text, i); }
      assert text[..i + 1] == text[..i] + [text[i]];
      data[i + 1] := data[src + i + 1];
      i := i + 1;
    }
    if i < |text| { TextAt(was, src, text, i); }
    assert data[0..|text|] == text;
  }

  /** Compare the text at an index with the first n characters of a pattern: 0 when they agree. */
  method StrNCmp(data: array<char>, at: nat, s: string, ghost text: string) returns (r: int)
    requires HoldsText(data[..], at, text) && '\0' !in s
    ensures r == 0 <==> OccursAt(text, s, 0)
  {
    if |s| == 0 {
      return 0;
    }
    var n := |s|;
    var i := 0;
    while data[at + i] == s[i]
      invariant 0 <= i < |s| && n == |s| - i && i <= |text|
      invariant text[..i] == s[..i]
      decreases n
    {
      assert s[i] in s;
      if i < |text| { TextAt(data[..], at, text, i); }
      assert i < |text|;
      assert text[..i + 1] == text[..i] + [text[i]] && s[..i + 1] == s[..i] + [s[i]];
      n := n - 1;
      if data[at + i] == '\0' || n == 0 {
        assert text[0..0 + |s|] == text[..|s|];
        return 0;
      }
      i := i + 1;
    }
    if i < |text| {
      TextAt(data[..], at, text, i);
      assert |s| <= |text| ==> text[0..0 + |s|][i] == text[i] && s[i] != text[i];
    }
    assert s[i] in s;
    return data[at + i] as int - s[i] as int;
  }

  lemma TextTail(data: seq<char>, at: nat, text: string, k: nat)
    requires HoldsText(data, at, text) && k <= |text|
    ensures HoldsText(data, at + k, text[k..])
  {
    assert data[at + k..at + k + |text[k..]|] == data[at..at + |text|][k..];
  }

  lemma OccursInTail(text: string, s: string, k: nat)
    requires k <= |text|
    ensures OccursAt(text, s, k) <==> OccursAt(text[k..], s, 0)
  {
    if k + |s| <= |text| { assert text[k..k + |s|] == text[k..][0..0 + |s|]; }
  }

  lemma OccurrenceStarts(text: string, s: string, k: nat)
    ensures s != [] && OccursAt(text, s, k) ==> k < |text| && text[k] == s[0]
  {
    if s != [] && OccursAt(text, s, k) { assert text[k..k + |s|][0] == text[k]; }
  }

  /** Search the line at an index for the pattern. */
  method SearchLine(data: array<char>, lineStart: nat, lineEnd: nat, s: string) returns (found: bool)
    requires lineStart <= lineEnd < data.Length && '\0' !in s
    requires HoldsText(data[..], lineStart, data[lineStart..lineEnd])
    ensures found <==> Matches(data[lineStart..lineEnd], s)
  {
    ghost var line := data[lineStart..lineEnd];
    var check := lineStart;
    var first := if s == [] then '\0' else s[0];
    while check < lineEnd
      invariant lineStart <= check <= lineEnd
      invariant s != [] ==> forall k :: 0 <= k < check - lineStart ==> !OccursAt(line, s, k)
    {
      ghost var k := check - lineStart;
      TextAt(data[..], lineStart, line, k);
      if first == data[check] {
        TextTail(data[..], lineStart, line, k);
        OccursInTail(line, s, k);
        var r := StrNCmp(data, check, s, line[k..]);
        if r == 0 {
          return true;
        }
      }
      OccurrenceStarts(line, s, k);
      check := check + 1;
    }
    return false;
  }

  // ----- The buffer and the file -----

  /** What has been read into the buffer from an index on, and what is still in the file. */
  ghost function Pending(data: seq<char>, lineStart: nat, last: nat, unread: string): string
    requires lineStart <= last <= |data|
  {
    data[lineStart..last] + unread
  }

  predicate NoEnd(f: string) {
    forall i :: 0 <= i < |f| ==> f[i] != '\0'
  }

  /** Where the line at an index ends: at a newline or at the end of what was read. */
  method FindLineEnd(data: array<char>, lineStart: nat, last: nat) returns (lineEnd: nat)
    requires lineStart <= last < data.Length
    ensures lineStart <= lineEnd <= last
    ensures forall i :: lineStart <= i < lineEnd ==> data[i] != '\n'
    ensures lineEnd < last ==> data[lineEnd] == '\n'
  {
    lineEnd := lineStart;
    while lineEnd < last && data[lineEnd] != '\n'
      invariant lineStart <= lineEnd <= last
      invariant forall i :: lineStart <= i < lineEnd ==> data[i] != '\n'
    {
      lineEnd := lineEnd + 1;
    }
  }

  /** Print the line between two indices if it contains the pattern. */
  method ReportLine(data: array<char>, lineStart: nat, lineEnd: nat, s: string, fname: string) returns (out: string)
    requires lineStart <= lineEnd < data.Length && '\0' !in s
    requires NoEnd(data[lineStart..lineEnd])
    modifies data
    ensures data[..] == old(data[..])[lineEnd := '\0']
    ensures out == Report(old(data[lineStart..lineEnd]), s, fname)
  {
    ghost var line := data[lineStart..lineEnd];
    data[lineEnd] := '\0';
    assert data[lineStart..lineEnd] == line;
    assert data[lineStart..lineStart + |line|] == line;
    var found := SearchLine(data, lineStart, lineEnd, s);
    if found {
      var len := StrLen(data, lineStart, line);
      out := fname + ":" + data[lineStart..lineStart + len] + "\n";
    } else {
      out := [];
    }
  }

  /** The first pending line ends at a newline: printing it leaves the rest pending. */
  lemma PendingLine(data: seq<char>, lineStart: nat, lineEnd: nat, last: nat, unread: string, s: string, fname: string)
    requires lineStart <= lineEnd < last < |data| && data[lineEnd] == '\n'
    requires forall i :: lineStart <= i < lineEnd ==> data[i] != '\n'
    requires NoEnd(Pending(data, lineStart, last, unread))
    ensures var line := data[lineStart..lineEnd];
            var rest := Pending(data[lineEnd := '\0'], lineEnd + 1, last, unread);
      && NoEnd(line) && NoEnd(rest)
      && PieceOutput(Pending(data, lineStart, last, unread), s, fname, |data| - 1)
           == Report(line, s, fname) + PieceOutput(rest, s, fname, |data| - 1)
  {
    var line := data[lineStart..lineEnd];
    var rest := Pending(data[lineEnd := '\0'], lineEnd + 1, last, unread);
    var all := Pending(data, lineStart, last, unread);
    assert all == line + "\n" + rest;
    NoEndParts(line + "\n", rest);
    NoEndParts(line, "\n");
    PieceCons(line, rest, s, fname, |data| - 1);
  }

  lemma PendingHead(data: seq<char>, lineStart: nat, last: nat, unread: string)
    requires lineStart <= last <= |data| && NoEnd(Pending(data, lineStart, last, unread))
    ensures NoEnd(data[lineStart..last])
  {
    var all := Pending(data, lineStart, last, unread);
    assert forall i :: 0 <= i < last - lineStart ==> data[lineStart..last][i] == all[i];
  }

  lemma NothingPending(s: string, fname: string, max: nat)
    requires max > 0
    ensures PieceOutput([], s, fname, max) == []
  {
    PieceLast([], s, fname, max);
  }

  /** What has been read is one line without a newline, and it is all that is pending or fills the buffer:
      printing it leaves what is still in the file pending. */
  lemma PendingLast(data: seq<char>, lineStart: nat, last: nat, unread: string, s: string, fname: string)
    requires lineStart <= last < |data| && |data| > 1 && NoEnd(Pending(data, lineStart, last, unread))
    requires forall i :: lineStart <= i < last ==> data[i] != '\n'
    requires unread == [] || (lineStart == 0 && last == |data| - 1)
    ensures NoEnd(data[lineStart..last]) && NoEnd(unread)
    ensures PieceOutput(Pending(data, lineStart, last, unread), s, fname, |data| - 1)
         == Report(data[lineStart..last], s, fname) + PieceOutput(unread, s, fname, |data| - 1)
  {
    var line := data[lineStart..last];
    NoEndParts(line, unread);
    assert '\n' !in line;
    if unread == [] {
      assert line + unread == line;
      PieceLast(line, s, fname, |data| - 1);
      NothingPending(s, fname, |data| - 1);
    } else {
      PieceFull(line, unread, s, fname, |data| - 1);
    }
  }

  lemma NoEndParts(a: string, b: string)
    requires NoEnd(a + b)
    ensures NoEnd(a) && NoEnd(b)
  {
    assert forall i :: 0 <= i < |a| ==> a[i] == (a + b)[i];
    assert forall i :: 0 <= i < |b| ==> b[i] == (a + b)[|a| + i];
  }

  /** End the unfinished line and copy it down to the front. */
  method KeepPartial(data: array<char>, lineStart: nat, lineEnd: nat)
    requires 0 < lineStart <= lineEnd < data.Length && NoEnd(data[lineStart..lineEnd])
    requires data[data.Length - 1] != '\n'
    modifies data
    ensures data[..lineEnd - lineStart] == old(data[lineStart..lineEnd])
    ensures data[data.Length - 1] != '\n'
  {
    ghost var partial := data[lineStart..lineEnd];
    data[lineEnd] := '\0';
    assert data[lineStart..lineStart + |partial|] == partial;
    StrCpyDown(data, lineStart, partial);
    assert data[0..|partial|] == partial;
  }

  /** The pending text is fit to be searched in a buffer of this size. */
  ghost predicate BufferOk(data: seq<char>, lineStart: nat, last: nat, unread: string) {
    && lineStart <= last < |data| && |data| > 1
    && data[|data| - 1] != '\n'
    && NoEnd(Pending(data, lineStart, last, unread))
  }

  /** What will be printed for the pending text. */
  ghost function ToPrint(data: seq<char>, lineStart: nat, last: nat, unread: string, s: string, fname: string): string
    requires lineStart <= last < |data| && |data| > 1
  {
    PieceOutput(Pending(data, lineStart, last, unread), s, fname, |data| - 1)
  }

  /** Whether a buffer is fit depends only on what is pending. */
  lemma SamePending(was: seq<char>, lineStart: nat, last: nat, unread: string,
                    data: seq<char>, last': nat, unread': string)
    requires BufferOk(was, lineStart, last, unread)
    requires |data| == |was| && last' < |data| && data[|data| - 1] != '\n'
    requires data[..last'] + unread' == was[lineStart..last] + unread
    ensures BufferOk(data, 0, last', unread')
    ensures Pending(data, 0, last', unread') == Pending(was, lineStart, last, unread)
  {
    assert data[0..last'] == data[..last'];
  }

  /** What is pending once the line that ends at a newline is taken. */
  lemma LineTaken(was: seq<char>, lineStart: nat, lineEnd: nat, last: nat, unread: string, s: string, fname: string)
    requires BufferOk(was, lineStart, last, unread)
    requires lineStart <= lineEnd < last && was[lineEnd] == '\n'
    requires forall i :: lineStart <= i < lineEnd ==> was[i] != '\n'
    ensures var now := was[lineEnd := '\0'];
      && NoEnd(was[lineStart..lineEnd]) && BufferOk(now, lineEnd + 1, last, unread)
      && ToPrint(was, lineStart, last, unread, s, fname)
           == Report(was[lineStart..lineEnd], s, fname) + ToPrint(now, lineEnd + 1, last, unread, s, fname)
      && (lineEnd + 1 == last ==>
            BufferOk(now, 0, 0, unread) && Pending(now, lineEnd + 1, last, unread) == Pending(now, 0, 0, unread))
  {
    PendingLine(was, lineStart, lineEnd, last, unread, s, fname);
    if lineEnd + 1 == last { NothingKept(was[lineEnd := '\0'], last, unread); }
  }

  /** The same when a line without a newline is taken. */
  lemma LastTaken(was: seq<char>, lineStart: nat, last: nat, unread: string, s: string, fname: string)
    requires BufferOk(was, lineStart, last, unread)
    requires unread == [] || (lineStart == 0 && last == |was| - 1)
    requires forall i :: lineStart <= i < last ==> was[i] != '\n'
    ensures var now := was[last := '\0'];
      && NoEnd(was[lineStart..last]) && BufferOk(now, 0, 0, unread)
      && ToPrint(was, lineStart, last, unread, s, fname)
           == Report(was[lineStart..last], s, fname) + ToPrint(now, 0, 0, unread, s, fname)
  {
    PendingLast(was, lineStart, last, unread, s, fname);
    assert was[0..0] + unread == unread;
    NothingKept(was[last := '\0'], 0, unread);
  }

  /** Print the pending line that ends at a newline if it matches. What is left pending starts after it. */
  method ReportWhole(data: array<char>, lineStart: nat, lineEnd: nat, last: nat,
                     s: string, fname: string, ghost unread: string) returns (out: string)
    requires '\0' !in s && BufferOk(data[..], lineStart, last, unread)
    requires lineStart <= lineEnd < last && data[lineEnd] == '\n'
    requires forall i :: lineStart <= i < lineEnd ==> data[i] != '\n'
    modifies data
    ensures BufferOk(data[..], lineEnd + 1, last, unread)
    ensures old(ToPrint(data[..], lineStart, last, unread, s, fname))
         == out + ToPrint(data[..], lineEnd + 1, last, unread, s, fname)
    ensures lineEnd + 1 == last ==>
      BufferOk(data[..], 0, 0, unread) && Pending(data[..], lineEnd + 1, last, unread) == Pending(data[..], 0, 0, unread)
  {
    ghost var was := data[..];
    LineTaken(was, lineStart, lineEnd, last, unread, s, fname);
    assert data[lineStart..lineEnd] == was[lineStart..lineEnd];
    out := ReportLine(data, lineStart, lineEnd, s, fname);
  }

  /** Print the pending line that has no newline if it matches: the last of the file, or a piece as long as
      the buffer. What is left pending is what is still in the file. */
  method ReportLast(data: array<char>, lineStart: nat, last: nat, cnt: nat,
                    s: string, fname: string, ghost unread: string) returns (out: string)
    requires '\0' !in s && BufferOk(data[..], lineStart, last, unread)
    requires (last == data.Length - 1 || unread == []) && (cnt == 0 ==> unread == [])
    requires forall i :: lineStart <= i < last ==> data[i] != '\n'
    requires data[last] == '\n' || cnt == 0 || lineStart == 0
    modifies data
    ensures BufferOk(data[..], 0, 0, unread)
    ensures old(ToPrint(data[..], lineStart, last, unread, s, fname)) == out + ToPrint(data[..], 0, 0, unread, s, fname)
  {
    ghost var was := data[..];
    LastTaken(was, lineStart, last, unread, s, fname);
    assert data[lineStart..last] == was[lineStart..last];
    out := ReportLine(data, lineStart, last, s, fname);
  }

  /** Print the first pending line if it matches. What is still to print is `todo`. */
  method ReportPending(data: array<char>, lineStart: nat, lineEnd: nat, last: nat, cnt: nat,
                       s: string, fname: string, ghost unread: string) returns (out: string, ghost todo: string)
    requires '\0' !in s && BufferOk(data[..], lineStart, last, unread)
    requires (last == data.Length - 1 || unread == []) && (cnt == 0 ==> unread == [])
    requires lineStart <= lineEnd <= last && (lineEnd < last ==> data[lineEnd] == '\n')
    requires forall i :: lineStart <= i < lineEnd ==> data[i] != '\n'
    requires data[lineEnd] == '\n' || cnt == 0 || lineStart == 0
    modifies data
    ensures old(ToPrint(data[..], lineStart, last, unread, s, fname)) == out + todo
    ensures lineEnd + 1 < last ==>
      BufferOk(data[..], lineEnd + 1, last, unread) && todo == ToPrint(data[..], lineEnd + 1, last, unread, s, fname)
    ensures lineEnd + 1 >= last ==>
      BufferOk(data[..], 0, 0, unread) && todo == ToPrint(data[..], 0, 0, unread, s, fname)
  {
    if lineEnd == last {
      out := ReportLast(data, lineStart, last, cnt, s, fname, unread);
      todo := ToPrint(data[..], 0, 0, unread, s, fname);
    } else {
      out := ReportWhole(data, lineStart, lineEnd, last, s, fname, unread);
      todo := ToPrint(data[..], lineEnd + 1, last, unread, s, fname);
    }
  }

  /** Keep the unfinished last line, and only that, at the front of the buffer. */
  method KeepPending(data: array<char>, lineStart: nat, last: nat, ghost unread: string) returns (last': nat)
    requires BufferOk(data[..], lineStart, last, unread) && lineStart > 0
    modifies data
    ensures last' < data.Length - 1 && BufferOk(data[..], 0, last', unread)
    ensures Pending(data[..], 0, last', unread) == old(Pending(data[..], lineStart, last, unread))
  {
    ghost var was := data[..];
    PendingHead(was, lineStart, last, unread);
    KeepPartial(data, lineStart, last);
    last' := last - lineStart;
    SamePending(was, lineStart, last, unread, data[..], last', unread);
  }

  /** Split what the buffer holds at its newlines, print the matching lines, and keep an unfinished
      last line at the front of the buffer. */
  method SearchBuffer(data: array<char>, last: nat, cnt: nat, s: string, fname: string,
                      ghost unread: string) returns (out: string, last': nat)
    requires '\0' !in s && BufferOk(data[..], 0, last, unread)
    requires (last == data.Length - 1 || unread == []) && (cnt == 0 ==> unread == [])
    modifies data
    ensures last' < data.Length - 1 && BufferOk(data[..], 0, last', unread)
    ensures cnt == 0 ==> last' == 0
    ensures old(ToPrint(data[..], 0, last, unread, s, fname)) == out + ToPrint(data[..], 0, last', unread, s, fname)
  {
    var lineStart := 0;
    out := [];
    ghost var all := ToPrint(data[..], 0, last, unread, s, fname);
    ghost var todo := all;
    while true
      invariant BufferOk(data[..], lineStart, last, unread) && (lineStart < last || lineStart == 0)
      invariant todo == ToPrint(data[..], lineStart, last, unread, s, fname)
      invariant all == out + todo
      decreases last - lineStart
    {
      var lineEnd := FindLineEnd(data, lineStart, last);
      if data[lineEnd] != '\n' && cnt != 0 && lineStart != 0 {
        last' := KeepPending(data, lineStart, last, unread);
        return;
      }
      var text;
      ghost var todo';
      text, todo' := ReportPending(data, lineStart, lineEnd, last, cnt, s, fname, unread);
      OutputSoFar(all, out, text, todo, todo');
      out, todo := out + text, todo';
      lineStart := lineEnd + 1;
      if lineStart >= last {
        last' := 0;
        return;
      }
    }
  }

  lemma OutputSoFar(all: string, out: string, text: string, rest: string, rest': string)
    requires all == out + rest && rest == text + rest'
    ensures all == out + text + rest'
  {
  }

  /** When every line in the buffer has been printed, only the file is pending. */
  lemma NothingKept(data: seq<char>, last: nat, unread: string)
    requires |data| > 1 && data[|data| - 1] != '\n' && last < |data| && NoEnd(data[last..last] + unread)
    ensures Pending(data, last, last, unread) == unread == Pending(data, 0, 0, unread) && BufferOk(data, 0, 0, unread)
  {
    assert data[last..last] + unread == unread == data[0..0] + unread;
  }

  /** Fill the buffer once and search it. */
  method SearchRound(s: string, fname: string, file: OpenFile, data: array<char>, last: nat)
    returns (cnt: nat, text: string, last': nat)
    requires '\0' !in s && file.pos <= |file.content| && last < data.Length - 1
    requires BufferOk(data[..], 0, last, file.content[file.pos..])
    modifies file, data
    ensures file.pos == old(file.pos) + cnt <= |file.content| && last' < data.Length - 1
    ensures BufferOk(data[..], 0, last', file.content[file.pos..])
    ensures old(ToPrint(data[..], 0, last, file.content[file.pos..], s, fname))
         == text + ToPrint(data[..], 0, last', file.content[file.pos..], s, fname)
    ensures cnt == 0 ==> last' == 0 && file.content[file.pos..] == []
  {
    cnt := Refill(data, last, file);
    text, last' := SearchBuffer(data, last + cnt, cnt, s, fname, file.content[file.pos..]);
  }

  /** Fill and search the buffer until the file ends. */
  method SearchFile(s: string, fname: string, file: OpenFile, data: array<char>) returns (out: string)
    requires '\0' !in s && data.Length > 1 && data[data.Length - 1] != '\n'
    requires file.pos == 0 && NoEnd(file.content)
    modifies file, data
    ensures out == PieceOutput(file.content, s, fname, data.Length - 1)
  {
    assert Pending(data[..], 0, 0, file.content[file.pos..]) == file.content;
    ghost var todo := ToPrint(data[..], 0, 0, file.content[file.pos..], s, fname);
    ghost var all := todo;
    out := [];
    var last := 0;
    while true
      invariant file.pos <= |file.content| && last < data.Length - 1
      invariant BufferOk(data[..], 0, last, file.content[file.pos..])
      invariant todo == ToPrint(data[..], 0, last, file.content[file.pos..], s, fname)
      invariant all == out + todo
      decreases |file.content| - file.pos
    {
      var cnt, text;
      cnt, text, last := SearchRound(s, fname, file, data, last);
      ghost var todo' := ToPrint(data[..], 0, last, file.content[file.pos..], s, fname);
      OutputSoFar(all, out, text, todo, todo');
      out, todo := out + text, todo';
      if cnt == 0 {
        NothingPending(s, fname, data.Length - 1);
        break;
      }
    }
  }

  /** Search one file through a buffer left over from earlier use. What is printed are the matching pieces
      of the file, once each and in order. These are exactly the lines that contain the pattern if and only
      if none of these lines is longer than the buffer. */
  method DoOneFile(s: string, fname: string, file: OpenFile?, data: array<char>) returns (status: int, out: string)
    requires '\0' !in s && data.Length > 1 && data[data.Length - 1] != '\n'
    requires file != null ==> file.pos == 0 && NoEnd(file.content)
    modifies file, data
    ensures file == null ==> status == -1 && out == "file open failed\n"
    ensures file != null ==> status == 0 && out == PieceOutput(file.content, s, fname, data.Length - 1)
    ensures file != null && '\n' !in fname ==>
      (out == GrepOutput(file.content, s, fname) <==> MatchesFit(Lines(file.content), s, data.Length - 1))
  {
    if file == null {
      return -1, "file open failed\n";
    }
    out := SearchFile(s, fname, file, data);
    if '\n' !in fname { PiecesAreExact(file.content, s, fname, data.Length - 1); }
    status := 0;
  }

  /** Read from the file into the free end of the buffer; what is pending stays the same. */
  method Refill(data: array<char>, last: nat, file: OpenFile) returns (cnt: nat)
    requires file.pos <= |file.content| && last < data.Length - 1
    requires BufferOk(data[..], 0, last, file.content[file.pos..])
    modifies data, file
    ensures file.pos == old(file.pos) + cnt <= |file.content| && last + cnt < data.Length
    ensures BufferOk(data[..], 0, last + cnt, file.content[file.pos..])
    ensures Pending(data[..], 0, last + cnt, file.content[file.pos..])
         == old(Pending(data[..], 0, last, file.content[file.pos..]))
    ensures last + cnt == data.Length - 1 || file.content[file.pos..] == []
    ensures cnt == 0 ==> file.content[file.pos..] == []
  {
    ghost var was := data[..];
    ghost var unread := file.content[file.pos..];
    cnt := file.Read(data, last, data.Length - 1 - last);
    assert file.content[file.pos..] == unread[cnt..];
    assert data[..last + cnt] + unread[cnt..] == was[0..last] + unread;
    SamePending(was, 0, last, unread, data[..], last + cnt, unread[cnt..]);
  }
}
