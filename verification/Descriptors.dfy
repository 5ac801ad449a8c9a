/** The descriptor table of a process: open, read and close as steps on the table, and what holds
    over whole runs of them. */
module Descriptors {
  import opened FileSystem
  import opened Sequences

  const MAX_FILE_NUM := 8
  const DIR_BUF_SIZE := 62 * FNAME_SIZE
  const RTC_FILE := 0
  const DIR_FILE := 1
  const REG_FILE := 2
  const ERROR := -1

  datatype Fops = NoFops | TerminalFops | RtcFops | DirFops | FileFops

  datatype Fd = Fd(fops: Fops, inodeP: nat, pos: nat, flags: nat)

  /** The table, and the directory listing that all directory descriptors share. */
  datatype Table = Table(files: seq<Fd>, dir: seq<byte>)

  /** What a call returns, and the bytes a read delivers. */
  datatype Outcome = Outcome(result: int, bytes: seq<byte>)

  /** `typed` is what a read delivers if the descriptor is a terminal. */
  datatype Call = Open(name: seq<byte>) | Read(fd: int, nbytes: nat, typed: seq<byte>) | Close(fd: int)

  const CLOSED_FD := Fd(NoFops, 0, 0, 0)
  const TERMINAL_FD := Fd(TerminalFops, 0, 0, 1)

  /** The file system as the calls see it: the directory's names, types and index node addresses, and
      what a read through an index node address from a position for some number of bytes gives. */
  datatype Volume = Volume(names: seq<seq<byte>>, types: seq<nat>, addresses: seq<nat>, read: (nat, nat, nat) -> Outcome)

  ghost predicate VolumeOk(v: Volume) {
    |v.types| == |v.addresses| == |v.names| && ShortNames(v.names)
  }

  // ----- The listing -----

  function PaddedName(name: seq<byte>): (p: seq<byte>)
    requires |name| <= FNAME_SIZE
    ensures |p| == FNAME_SIZE
  {
    Padded(name, FNAME_SIZE, 0)
  }

  ghost predicate ShortNames(names: seq<seq<byte>>) {
    forall i :: 0 <= i < |names| ==> |names[i]| <= FNAME_SIZE
  }

  /** The names one after the other, each padded with zeros. */
  ghost function Listing(names: seq<seq<byte>>): (l: seq<byte>)
    requires ShortNames(names)
    ensures |l| == |names| * FNAME_SIZE
  {
    if names == [] then [] else Listing(names[..|names| - 1]) + PaddedName(names[|names| - 1])
  }

  lemma ListingSnoc(names: seq<seq<byte>>, i: nat)
    requires ShortNames(names) && i < |names|
    ensures Listing(names[..i + 1]) == Listing(names[..i]) + PaddedName(names[i])
  {
    assert names[..i + 1][..i] == names[..i];
  }

  lemma {:induction false} ListingAt(names: seq<seq<byte>>, k: nat)
    requires ShortNames(names) && k < |names|
    ensures Listing(names)[k * FNAME_SIZE..(k + 1) * FNAME_SIZE] == PaddedName(names[k])
  {
    var front, last := names[..|names| - 1], names[|names| - 1];
    if k < |front| {
      ListingAt(front, k);
      SliceOfConcat(Listing(front), PaddedName(last), k * FNAME_SIZE, (k + 1) * FNAME_SIZE);
    } else {
      assert (Listing(front) + PaddedName(last))[k * FNAME_SIZE..(k + 1) * FNAME_SIZE] == PaddedName(last);
    }
  }

  // ----- The steps -----

  function FirstFreeFd(files: seq<Fd>): (fd: nat)
    ensures fd <= |files|
    ensures forall i :: 0 <= i < fd ==> files[i].flags != 0
    ensures fd < |files| ==> files[fd].flags == 0
  {
    FirstWhere(files, (f: Fd) => f.flags == 0)
  }

  /** The descriptor that opening entry k makes, if its type is known. */
  function Opened(v: Volume, k: nat): (fd: Fd)
    requires k < |v.types| == |v.addresses|
  {
    if v.types[k] == RTC_FILE then Fd(RtcFops, 0, 0, 1)
    else if v.types[k] == DIR_FILE then Fd(DirFops, 0, 0, 1)
    else if v.types[k] == REG_FILE then Fd(FileFops, v.addresses[k], 0, 1)
    else CLOSED_FD
  }

  ghost function StepOpen(v: Volume, t: Table, name: seq<byte>): (Table, Outcome)
    requires VolumeOk(v)
  {
    var k := FirstNamed(v.names, Cut(name, FNAME_SIZE), 0);
    var fd := FirstFreeFd(t.files);
    if k == |v.names| || fd == |t.files| || Opened(v, k) == CLOSED_FD then (t, Outcome(ERROR, []))
    else
      (Table(t.files[fd := Opened(v, k)], if v.types[k] == DIR_FILE then Listing(v.names) else t.dir),
       Outcome(fd, []))
  }

  /** The position after a read, which is added in 32-bit arithmetic, errors included. */
  function Advance(pos: nat, result: int): nat {
    if pos + result < 0 then WORD - 1 else pos + result
  }

  /** A directory read that reaches the end of the listing returns nothing. */
  function ListingRead(dir: seq<byte>, pos: nat, nbytes: nat): Outcome {
    if pos + nbytes < |dir| then Outcome(nbytes, dir[pos..pos + nbytes]) else Outcome(0, [])
  }

  ghost function StepRead(v: Volume, t: Table, fd: int, nbytes: nat, typed: seq<byte>): (Table, Outcome)
    requires VolumeOk(v) && |t.files| == MAX_FILE_NUM
  {
    if fd < 0 || fd >= MAX_FILE_NUM || fd == 1 || t.files[fd].flags == 0 then (t, Outcome(ERROR, []))
    else
      var f := t.files[fd];
      match f.fops
      case NoFops => (t, Outcome(ERROR, []))
      case TerminalFops => (t, Outcome(|typed|, typed))
      case RtcFops => (t, Outcome(0, []))
      case DirFops =>
        (t.(files := t.files[fd := f.(pos := if f.pos + nbytes < |t.dir| then f.pos + nbytes else |t.dir|)]),
         ListingRead(t.dir, f.pos, nbytes))
      case FileFops =>
        if f.flags != 1 || f.inodeP == 0 then (t, Outcome(ERROR, []))
        else
          var o := v.read(f.inodeP, f.pos, nbytes);
          (t.(files := t.files[fd := f.(pos := Advance(f.pos, o.result))]), o)
  }

  function StepClose(t: Table, fd: int): (Table, Outcome)
    requires |t.files| == MAX_FILE_NUM
  {
    if fd < 2 || fd >= MAX_FILE_NUM || t.files[fd].flags == 0 then (t, Outcome(ERROR, []))
    else (t.(files := t.files[fd := CLOSED_FD]), Outcome(0, []))
  }

  ghost function Step(v: Volume, t: Table, c: Call): (r: (Table, Outcome))
    requires VolumeOk(v) && |t.files| == MAX_FILE_NUM
    ensures |r.0.files| == MAX_FILE_NUM
  {
    match c
    case Open(name) => StepOpen(v, t, name)
    case Read(fd, nbytes, typed) => StepRead(v, t, fd, nbytes, typed)
    case Close(fd) => StepClose(t, fd)
  }

  // ----- What every step keeps -----

  ghost predicate FdOk(f: Fd) {
    && f.flags <= 1
    && (f.flags == 1 <==> f.fops != NoFops)
  }

  /** Descriptors 0 and 1 are the terminal and no other is; a descriptor is in use exactly when its
      operations are set. */
  ghost predicate TableOk(t: Table) {
    && |t.files| == MAX_FILE_NUM
    && t.files[0] == TERMINAL_FD && t.files[1] == TERMINAL_FD
    && forall fd :: 2 <= fd < MAX_FILE_NUM ==> FdOk(t.files[fd]) && t.files[fd].fops != TerminalFops
  }

  /** The table of a new process. */
  function NewTable(dir: seq<byte>): (t: Table) {
    Table([TERMINAL_FD, TERMINAL_FD] + seq(MAX_FILE_NUM - 2, _ => CLOSED_FD), dir)
  }

  lemma StepKeepsTable(v: Volume, t: Table, c: Call)
    requires VolumeOk(v) && TableOk(t)
    ensures TableOk(Step(v, t, c).0)
  {
  }

  /** Open returns the least free descriptor, with the operations of the file's type, the stored address of a
      regular file and position 0, and changes no other, or it changes nothing at all; it fails exactly for a
      missing name, an unknown type or a full table. */
  lemma OpenOutcome(v: Volume, t: Table, name: seq<byte>)
    requires VolumeOk(v) && TableOk(t)
    ensures var (t', o) := Step(v, t, Open(name));
      var fd, k := o.result, FirstNamed(v.names, Cut(name, FNAME_SIZE), 0);
      && (fd == ERROR ==> t' == t)
      && (fd == ERROR <==>
            || Cut(name, FNAME_SIZE) !in v.names
            || v.types[k] > 2
            || forall i :: 0 <= i < MAX_FILE_NUM ==> t.files[i].flags == 1)
      && (fd != ERROR ==>
            && 2 <= fd < 8 && t.files[fd].flags == 0
            && t'.files[fd] == (if v.types[k] == 0 then Fd(RtcFops, 0, 0, 1)
                                else if v.types[k] == 1 then Fd(DirFops, 0, 0, 1)
                                else Fd(FileFops, v.addresses[k], 0, 1))
            && (forall i :: 0 <= i < fd ==> t.files[i].flags == 1)
            && (forall i :: 0 <= i < MAX_FILE_NUM && i != fd ==> t'.files[i] == t.files[i])
            && t'.dir == if v.types[k] == 1 then Listing(v.names) else t.dir)
  {
    var wanted := Cut(name, FNAME_SIZE);
    var k := FirstNamed(v.names, wanted, 0);
    if wanted in v.names {
      var j :| 0 <= j < |v.names| && v.names[j] == wanted;
      assert k <= j;
    }
    var fd := FirstFreeFd(t.files);
    if fd == MAX_FILE_NUM {
      forall i | 0 <= i < MAX_FILE_NUM ensures t.files[i].flags == 1 { assert t.files[i].flags != 0; }
    }
  }

  /** Close succeeds exactly on an open descriptor from 2 on. It frees that descriptor and changes nothing else,
      and otherwise nothing at all. */
  lemma CloseOutcome(v: Volume, t: Table, fd: int)
    requires VolumeOk(v) && TableOk(t)
    ensures var (t', o) := Step(v, t, Close(fd));
      if 2 <= fd < MAX_FILE_NUM && t.files[fd].flags == 1 then
        && o == Outcome(0, []) && |t'.files| == MAX_FILE_NUM && t'.dir == t.dir
        && t'.files[fd] == Fd(NoFops, 0, 0, 0)
        && forall i :: 0 <= i < MAX_FILE_NUM && i != fd ==> t'.files[i] == t.files[i]
      else o == Outcome(-1, []) && t' == t
  {
  }

  /** A descriptor that has been closed can be opened again: with a file to open, the next open takes it or a
      lower one that was free before. */
  lemma ClosedIsReopened(v: Volume, t: Table, fd: int, name: seq<byte>)
    requires VolumeOk(v) && TableOk(t) && 2 <= fd < MAX_FILE_NUM && t.files[fd].flags == 1
    requires var k := FirstNamed(v.names, Cut(name, FNAME_SIZE), 0); k < |v.names| && v.types[k] <= 2
    ensures TableOk(Step(v, t, Close(fd)).0)
    ensures var o := Step(v, Step(v, t, Close(fd)).0, Open(name)).1;
      && 2 <= o.result <= fd
      && (o.result == fd <==> forall i :: 0 <= i < fd ==> t.files[i].flags == 1)
  {
    StepKeepsTable(v, t, Close(fd));
    CloseOutcome(v, t, fd);
    var t' := Step(v, t, Close(fd)).0;
    OpenOutcome(v, t', name);
    var o := Step(v, t', Open(name)).1;
    assert t'.files[fd].flags == 0;
    if o.result < fd { assert t.files[o.result].flags != 1; }
  }

  /** What a read does not hand to a file's own operations: it fails on a bad descriptor and on one without an
      index node, takes what was typed from the terminal, and waits for the clock. None of these changes the table. */
  lemma ReadElsewhere(v: Volume, t: Table, fd: int, nbytes: nat, typed: seq<byte>)
    requires VolumeOk(v) && TableOk(t)
    requires fd < 2 || fd >= 8 || t.files[fd].flags == 0 || t.files[fd].fops == RtcFops
      || (t.files[fd].fops == FileFops && t.files[fd].inodeP == 0)
    ensures Step(v, t, Read(fd, nbytes, typed)) ==
      (t, if fd == 0 then Outcome(|typed|, typed)
          else if 2 <= fd < 8 && t.files[fd].fops == RtcFops then Outcome(0, [])
          else Outcome(-1, []))
  {
  }

  // ----- Runs -----

  /** The i-th call takes one table to the next. */
  ghost predicate Called(v: Volume, ts: seq<Table>, os: seq<Outcome>, cs: seq<Call>, i: nat)
    requires VolumeOk(v) && i < |cs| == |os| && |ts| == |cs| + 1
  {
    |ts[i].files| == MAX_FILE_NUM && Step(v, ts[i], cs[i]) == (ts[i + 1], os[i])
  }

  /** The tables before, between and after the calls of a run, and what the calls return. */
  ghost predicate IsRun(v: Volume, ts: seq<Table>, os: seq<Outcome>, cs: seq<Call>)
    requires VolumeOk(v)
  {
    && |ts| == |cs| + 1 && |os| == |cs| && TableOk(ts[0])
    && forall i :: 0 <= i < |cs| ==> Called(v, ts, os, cs, i)
  }

  predicate IsRead(c: Call, fd: int) {
    c.Read? && c.fd == fd
  }

  /** The bytes that the first n calls read from one descriptor. */
  ghost function Delivered(os: seq<Outcome>, cs: seq<Call>, fd: int, n: nat): seq<byte>
    requires n <= |cs| == |os|
  {
    if n == 0 then [] else Delivered(os, cs, fd, n - 1) + (if IsRead(cs[n - 1], fd) then os[n - 1].bytes else [])
  }

  /** How many bytes the first n calls ask to read from one descriptor. */
  function Asked(cs: seq<Call>, fd: int, n: nat): nat
    requires n <= |cs|
  {
    if n == 0 then 0 else Asked(cs, fd, n - 1) + if IsRead(cs[n - 1], fd) then cs[n - 1].nbytes else 0
  }

  predicate NeverCloses(cs: seq<Call>, fd: int) {
    forall i :: 0 <= i < |cs| ==> cs[i] != Close(fd)
  }

  lemma {:induction false} RunKeepsTable(v: Volume, ts: seq<Table>, os: seq<Outcome>, cs: seq<Call>, n: nat)
    requires VolumeOk(v) && IsRun(v, ts, os, cs) && n < |ts|
    ensures TableOk(ts[n])
  {
    if n > 0 {
      RunKeepsTable(v, ts, os, cs, n - 1);
      assert Called(v, ts, os, cs, n - 1);
      StepKeepsTable(v, ts[n - 1], cs[n - 1]);
    }
  }

  /** A descriptor in use changes only when it is read or closed itself. */
  lemma OthersUntouched(v: Volume, t: Table, c: Call, fd: int)
    requires VolumeOk(v) && TableOk(t) && 0 <= fd < MAX_FILE_NUM && t.files[fd].flags == 1
    requires c.Read? || c.Close? ==> c.fd != fd
    ensures Step(v, t, c).0.files[fd] == t.files[fd]
  {
  }

  /** This read delivers the bytes of this file. */
  ghost predicate DeliversAt(v: Volume, address: nat, file: seq<byte>, pos: nat, nbytes: nat) {
    pos <= |file| ==>
      var n := ReadLength(|file|, pos, nbytes);
      v.read(address, pos, nbytes) == Outcome(n, file[pos..pos + n])
  }

  /** Reads through this address deliver the bytes of this file. */
  ghost predicate Delivers(v: Volume, address: nat, file: seq<byte>) {
    address != 0 && forall pos: nat, nbytes: nat :: DeliversAt(v, address, file, pos, nbytes)
  }

  lemma FileReadStep(v: Volume, t: Table, fd: int, nbytes: nat, typed: seq<byte>, f: Fd, file: seq<byte>)
    requires VolumeOk(v) && TableOk(t) && 2 <= fd < MAX_FILE_NUM && t.files[fd] == f
    requires f.fops == FileFops && Delivers(v, f.inodeP, file) && f.pos <= |file|
    ensures var (t', o) := Step(v, t, Read(fd, nbytes, typed));
      var n := ReadLength(|file|, f.pos, nbytes);
      && o == Outcome(n, file[f.pos..f.pos + n])
      && t'.files[fd] == f.(pos := f.pos + n)
  {
    assert DeliversAt(v, f.inodeP, file, f.pos, nbytes);
  }

  /** A read that fails moves the position back by one, since the error code is added to it: the byte
      before, already delivered, will be read again. */
  lemma FailedReadStepsBack(v: Volume, t: Table, fd: int, nbytes: nat, typed: seq<byte>)
    requires VolumeOk(v) && TableOk(t) && 2 <= fd < MAX_FILE_NUM
    requires t.files[fd].fops == FileFops && t.files[fd].inodeP != 0
    requires v.read(t.files[fd].inodeP, t.files[fd].pos, nbytes) == Outcome(ERROR, [])
    ensures var pos := t.files[fd].pos;
      Step(v, t, Read(fd, nbytes, typed)).0.files[fd].pos == if pos > 0 then pos - 1 else WORD - 1
  {
  }

  /** One call of a run: a read from the descriptor delivers the next bytes, any other call leaves it alone. */
  lemma CallReadsFile(v: Volume, ts: seq<Table>, os: seq<Outcome>, cs: seq<Call>, n: nat,
                      fd: int, f: Fd, file: seq<byte>)
    requires VolumeOk(v) && IsRun(v, ts, os, cs) && n < |cs|
    requires TableOk(ts[n]) && 2 <= fd < MAX_FILE_NUM && ts[n].files[fd] == f && NeverCloses(cs, fd)
    requires f.fops == FileFops && Delivers(v, f.inodeP, file) && f.pos <= |file|
    ensures var end := if IsRead(cs[n], fd) then AtMost(f.pos + cs[n].nbytes, |file|) else f.pos;
      && TableOk(ts[n + 1]) && ts[n + 1].files[fd] == f.(pos := end)
      && (IsRead(cs[n], fd) ==> os[n].bytes == file[f.pos..end])
  {
    assert Called(v, ts, os, cs, n);
    StepKeepsTable(v, ts[n], cs[n]);
    if IsRead(cs[n], fd) { FileReadStep(v, ts[n], fd, cs[n].nbytes, cs[n].typed, f, file); }
    else { OthersUntouched(v, ts[n], cs[n], fd); }
  }

  /** Where a descriptor of a file of this size stands after the first n calls. */
  function Position(pos: nat, cs: seq<Call>, fd: int, n: nat, size: nat): (p: nat)
    requires n <= |cs| && pos <= size
    ensures pos <= p <= size
  {
    AtMost(pos + Asked(cs, fd, n), size)
  }

  lemma {:induction false} RunPosition(v: Volume, ts: seq<Table>, os: seq<Outcome>, cs: seq<Call>, n: nat,
                                       fd: int, f: Fd, file: seq<byte>)
    requires VolumeOk(v) && IsRun(v, ts, os, cs) && n <= |cs|
    requires 2 <= fd < MAX_FILE_NUM && ts[0].files[fd] == f && NeverCloses(cs, fd)
    requires f.fops == FileFops && Delivers(v, f.inodeP, file) && f.pos <= |file|
    ensures TableOk(ts[n]) && ts[n].files[fd] == f.(pos := Position(f.pos, cs, fd, n, |file|))
  {
    if n > 0 {
      RunPosition(v, ts, os, cs, n - 1, fd, f, file);
      CallReadsFile(v, ts, os, cs, n - 1, fd, ts[n - 1].files[fd], file);
    }
  }

  /** What one call of a run delivers. */
  lemma CallDelivers(v: Volume, ts: seq<Table>, os: seq<Outcome>, cs: seq<Call>, n: nat,
                     fd: int, f: Fd, file: seq<byte>)
    requires VolumeOk(v) && IsRun(v, ts, os, cs) && n < |cs|
    requires 2 <= fd < MAX_FILE_NUM && ts[0].files[fd] == f && NeverCloses(cs, fd)
    requires f.fops == FileFops && Delivers(v, f.inodeP, file) && f.pos <= |file|
    ensures var from, to := Position(f.pos, cs, fd, n, |file|), Position(f.pos, cs, fd, n + 1, |file|);
      from <= to && Delivered(os, cs, fd, n + 1) == Delivered(os, cs, fd, n) + file[from..to]
  {
    RunPosition(v, ts, os, cs, n, fd, f, file);
    CallReadsFile(v, ts, os, cs, n, fd, ts[n].files[fd], file);
  }

  /** Whatever is opened, read and closed through other descriptors, even for the same file, the
      bytes read through one descriptor of a regular file are the next bytes of the file, as many as
      were asked for or as there are. */
  lemma {:induction false} RunReadsFile(v: Volume, ts: seq<Table>, os: seq<Outcome>, cs: seq<Call>, n: nat,
                                        fd: int, f: Fd, file: seq<byte>)
    requires VolumeOk(v) && IsRun(v, ts, os, cs) && n <= |cs|
    requires 2 <= fd < MAX_FILE_NUM && ts[0].files[fd] == f && NeverCloses(cs, fd)
    requires f.fops == FileFops && Delivers(v, f.inodeP, file) && f.pos <= |file|
    ensures Delivered(os, cs, fd, n) == file[f.pos..Position(f.pos, cs, fd, n, |file|)]
  {
    if n > 0 {
      RunReadsFile(v, ts, os, cs, n - 1, fd, f, file);
      CallDelivers(v, ts, os, cs, n - 1, fd, f, file);
      Slices(file, f.pos, Position(f.pos, cs, fd, n - 1, |file|), Position(f.pos, cs, fd, n, |file|));
    }
  }

  lemma Slices(file: seq<byte>, from: nat, mid: nat, to: nat)
    requires from <= mid <= to <= |file|
    ensures file[from..mid] + file[mid..to] == file[from..to]
  {
  }

  /** The bytes read through a descriptor since the call that opened it are a prefix of its file. */
  lemma OpenedFileReadsPrefix(v: Volume, t: Table, name: seq<byte>, ts: seq<Table>, os: seq<Outcome>, cs: seq<Call>,
                              n: nat, fd: int, file: seq<byte>)
    requires VolumeOk(v) && TableOk(t) && IsRun(v, ts, os, cs) && n <= |cs|
    requires Step(v, t, Open(name)) == (ts[0], Outcome(fd, [])) && fd != ERROR && NeverCloses(cs, fd)
    requires var k := FirstNamed(v.names, Cut(name, FNAME_SIZE), 0);
      k < |v.names| && v.types[k] == 2 && Delivers(v, v.addresses[k], file)
    ensures Delivered(os, cs, fd, n) == file[..AtMost(Asked(cs, fd, n), |file|)]
  {
    OpenOutcome(v, t, name);
    RunReadsFile(v, ts, os, cs, n, fd, ts[0].files[fd], file);
  }

  // ----- Listing a directory -----

  ghost predicate ReadsNames(cs: seq<Call>, fd: int) {
    forall i :: 0 <= i < |cs| && cs[i].Read? && cs[i].fd == fd ==> cs[i].nbytes == FNAME_SIZE
  }

  /** What the k-th read of one name returns: the name, except that the last name is never reported. */
  ghost function NameRead(names: seq<seq<byte>>, k: nat): Outcome
    requires ShortNames(names)
  {
    if k + 1 < |names| then Outcome(FNAME_SIZE, PaddedName(names[k])) else Outcome(0, [])
  }

  ghost predicate OpenDirAt(v: Volume, t: Table, fd: int, k: nat)
    requires VolumeOk(v) && |t.files| == MAX_FILE_NUM && 0 <= fd < MAX_FILE_NUM
  {
    && t.dir == Listing(v.names)
    && k <= |v.names|
    && t.files[fd] == Fd(DirFops, 0, k * FNAME_SIZE, 1)
  }

  lemma DirReadStep(v: Volume, t: Table, fd: int, typed: seq<byte>, k: nat)
    requires VolumeOk(v) && TableOk(t) && 2 <= fd < MAX_FILE_NUM && OpenDirAt(v, t, fd, k)
    ensures var (t', o) := Step(v, t, Read(fd, FNAME_SIZE, typed));
      && o == NameRead(v.names, k)
      && OpenDirAt(v, t', fd, if k + 1 < |v.names| then k + 1 else |v.names|)
  {
    if k + 1 < |v.names| { ListingAt(v.names, k); }
  }

  /** How many of the first n calls read from one descriptor. */
  function ReadCount(cs: seq<Call>, fd: int, n: nat): nat
    requires n <= |cs|
  {
    if n == 0 then 0 else ReadCount(cs, fd, n - 1) + if IsRead(cs[n - 1], fd) then 1 else 0
  }

  /** One call of a run: a read from the descriptor reports the next name, any other call leaves it alone. */
  lemma CallListsNames(v: Volume, ts: seq<Table>, os: seq<Outcome>, cs: seq<Call>, n: nat, fd: int, k: nat)
    requires VolumeOk(v) && IsRun(v, ts, os, cs) && n < |cs| && TableOk(ts[n])
    requires 2 <= fd < MAX_FILE_NUM && NeverCloses(cs, fd) && ReadsNames(cs, fd)
    requires OpenDirAt(v, ts[n], fd, AtMost(k, |v.names|))
    ensures TableOk(ts[n + 1])
    ensures OpenDirAt(v, ts[n + 1], fd, AtMost(if IsRead(cs[n], fd) then k + 1 else k, |v.names|))
    ensures IsRead(cs[n], fd) ==> os[n] == NameRead(v.names, k)
  {
    assert Called(v, ts, os, cs, n);
    StepKeepsTable(v, ts[n], cs[n]);
    if IsRead(cs[n], fd) { DirReadStep(v, ts[n], fd, cs[n].typed, AtMost(k, |v.names|)); }
    else { OthersUntouched(v, ts[n], cs[n], fd); }
  }

  /** Reading a directory name by name reports every name but the last, once each and in order, and
      nothing ever after, whatever is done through other descriptors. */
  lemma {:induction false} RunListsNames(v: Volume, ts: seq<Table>, os: seq<Outcome>, cs: seq<Call>, n: nat, fd: int)
    requires VolumeOk(v) && IsRun(v, ts, os, cs) && n <= |cs|
    requires 2 <= fd < MAX_FILE_NUM && NeverCloses(cs, fd) && ReadsNames(cs, fd) && OpenDirAt(v, ts[0], fd, 0)
    ensures TableOk(ts[n]) && OpenDirAt(v, ts[n], fd, AtMost(ReadCount(cs, fd, n), |v.names|))
    ensures forall i :: 0 <= i < n && IsRead(cs[i], fd) ==> os[i] == NameRead(v.names, ReadCount(cs, fd, i))
  {
    if n > 0 {
      RunListsNames(v, ts, os, cs, n - 1, fd);
      CallListsNames(v, ts, os, cs, n - 1, fd, ReadCount(cs, fd, n - 1));
    }
  }

  /** The name-by-name reads of a directory since the call that opened it. */
  lemma OpenedDirListsNames(v: Volume, t: Table, name: seq<byte>, ts: seq<Table>, os: seq<Outcome>, cs: seq<Call>, fd: int)
    requires VolumeOk(v) && TableOk(t) && IsRun(v, ts, os, cs)
    requires Step(v, t, Open(name)) == (ts[0], Outcome(fd, [])) && fd != ERROR && NeverCloses(cs, fd)
    requires var k := FirstNamed(v.names, Cut(name, FNAME_SIZE), 0); k < |v.names| && v.types[k] == 1
    requires ReadsNames(cs, fd)
    ensures forall i :: 0 <= i < |cs| && IsRead(cs[i], fd) ==> os[i] == NameRead(v.names, ReadCount(cs, fd, i))
  {
    OpenOutcome(v, t, name);
    RunListsNames(v, ts, os, cs, |cs|, fd);
  }

  // ----- Reading a directory in pieces of any sizes -----

  /** How many bytes the reads ask for that do not reach the end of a listing of this size. */
  function BeforeEnd(cs: seq<Call>, fd: int, n: nat, size: nat): (w: nat)
    requires n <= |cs|
    ensures w <= size
  {
    if n == 0 then 0 else if Asked(cs, fd, n) < size then Asked(cs, fd, n) else BeforeEnd(cs, fd, n - 1, size)
  }

  /** As long as the end has not been reached, that is all they ask for. */
  lemma BeforeEndIs(cs: seq<Call>, fd: int, n: nat, size: nat)
    requires n <= |cs| && Asked(cs, fd, n) < size
    ensures BeforeEnd(cs, fd, n, size) == Asked(cs, fd, n)
  {
  }

  /** The listing is in place and the descriptor stands where the first n calls have moved it. */
  ghost predicate ListingAfter(v: Volume, t: Table, cs: seq<Call>, fd: int, n: nat)
    requires VolumeOk(v) && n <= |cs|
  {
    && TableOk(t) && 2 <= fd < MAX_FILE_NUM
    && t.dir == Listing(v.names)
    && t.files[fd] == Fd(DirFops, 0, AtMost(Asked(cs, fd, n), |Listing(v.names)|), 1)
  }

  lemma CallReadsListing(v: Volume, ts: seq<Table>, os: seq<Outcome>, cs: seq<Call>, n: nat, fd: int)
    requires VolumeOk(v) && IsRun(v, ts, os, cs) && n < |cs| && NeverCloses(cs, fd)
    requires ListingAfter(v, ts[n], cs, fd, n)
    ensures ListingAfter(v, ts[n + 1], cs, fd, n + 1)
    ensures var l := Listing(v.names);
      var from, end := Asked(cs, fd, n), Asked(cs, fd, n + 1);
      IsRead(cs[n], fd) ==> os[n].bytes == if end < |l| then l[from..end] else []
  {
    assert Called(v, ts, os, cs, n);
    StepKeepsTable(v, ts[n], cs[n]);
    if !IsRead(cs[n], fd) { OthersUntouched(v, ts[n], cs[n], fd); }
  }

  /** Reading a directory in pieces of any sizes delivers the bytes of the listing in order, without those of
      the read that reaches its end, and nothing ever after. */
  lemma {:induction false} RunReadsListing(v: Volume, ts: seq<Table>, os: seq<Outcome>, cs: seq<Call>, n: nat, fd: int)
    requires VolumeOk(v) && IsRun(v, ts, os, cs) && n <= |cs| && NeverCloses(cs, fd)
    requires ListingAfter(v, ts[0], cs, fd, 0)
    ensures ListingAfter(v, ts[n], cs, fd, n)
    ensures Delivered(os, cs, fd, n) == Listing(v.names)[..BeforeEnd(cs, fd, n, |Listing(v.names)|)]
  {
    if n > 0 {
      var m, l := n - 1, Listing(v.names);
      RunReadsListing(v, ts, os, cs, m, fd);
      CallReadsListing(v, ts, os, cs, m, fd);
      if Asked(cs, fd, n) < |l| {
        BeforeEndIs(cs, fd, m, |l|);
        Slices(l, 0, Asked(cs, fd, m), Asked(cs, fd, n));
      }
    }
  }
}
