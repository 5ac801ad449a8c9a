/** The file system calls on their own mutable state. Every call of open, read and close is proved to
    be the step of the same name in Descriptors on the volume that the image presents. */
module FileSystemCode {
  import opened FileSystem
  import opened Descriptors
  import opened DirectoryBuffer
  import opened Mount
  import opened Sequences

  // ----- Names -----

  /** The name ends at the first zero byte. */
  lemma CutIs(s: seq<byte>, n: nat, i: nat)
    requires i <= |s| && i <= n && forall j :: 0 <= j < i ==> s[j] != 0
    requires i == n || (i < |s| && s[i] == 0)
    ensures Cut(s, n) == s[..i]
  {
    var name := Cut(s, n);
    assert forall k :: 0 <= k < |name| ==> name[k] == s[k];
  }

  /** The name goes on as long as no zero byte comes. */
  lemma CutGoesOn(s: seq<byte>, n: nat, i: nat)
    requires i < |s| && i < n && forall j :: 0 <= j <= i ==> s[j] != 0
    ensures |Cut(s, n)| > i && Cut(s, n)[i] == s[i]
  {
  }

  /** A string does not stop before its zero byte. */
  lemma InString(s: seq<byte>, n: nat, i: nat)
    requires IsString(s, n) && i < n && i <= |s| && forall j :: 0 <= j < i ==> s[j] != 0
    ensures i < |s|
  {
    if |s| < n {
      var z :| 0 <= z < |s| && s[z] == 0;
      assert z >= i;
    }
  }

  /** At the first difference, or at a zero byte they share, two names are decided. */
  lemma Decided(s1: seq<byte>, s2: seq<byte>, n: nat, i: nat)
    requires i < n && i < |s1| && i < |s2| && s1[..i] == s2[..i]
    requires forall j :: 0 <= j < i ==> s1[j] != 0 && s2[j] != 0
    requires s1[i] != s2[i] || s1[i] == 0
    ensures Cut(s1, n) == Cut(s2, n) <==> s1[i] == s2[i]
  {
    if s1[i] == 0 { CutIs(s1, n, i); } else { CutGoesOn(s1, n, i); }
    if s2[i] == 0 { CutIs(s2, n, i); } else { CutGoesOn(s2, n, i); }
  }

  /** Compare at most n characters: 0 when the names are the same. */
  method StrNCmp(s1: seq<byte>, s2: seq<byte>, n: nat) returns (r: int)
    requires IsString(s1, n) && IsString(s2, n)
    ensures r == 0 <==> Cut(s1, n) == Cut(s2, n)
  {
    var i := 0;
    while i < n
      invariant i <= n && i <= |s1| && i <= |s2|
      invariant s1[..i] == s2[..i]
      invariant forall j :: 0 <= j < i ==> s1[j] != 0 && s2[j] != 0
    {
      InString(s1, n, i);
      InString(s2, n, i);
      if s1[i] != s2[i] || s1[i] == 0 {
        Decided(s1, s2, n, i);
        var c1: int, c2: int := s1[i], s2[i];
        return c1 - c2;
      }
      i := i + 1;
    }
    CutIs(s1, n, n);
    CutIs(s2, n, n);
    r := 0;
  }

  /** Copy characters up to a zero byte, at most 32. */
  method CopyText(dest: array<byte>, at: nat, src: seq<byte>) returns (i: nat)
    requires at + FNAME_SIZE <= dest.Length && IsString(src, FNAME_SIZE)
    modifies dest
    ensures i <= FNAME_SIZE && dest[at..at + i] == Cut(src, FNAME_SIZE)
    ensures forall j :: 0 <= j < at || at + FNAME_SIZE <= j < dest.Length ==> dest[j] == old(dest[j])
  {
    i := 0;
    InString(src, FNAME_SIZE, 0);
    while i < FNAME_SIZE && src[i] != 0
      invariant i <= FNAME_SIZE && i <= |src| && (i < FNAME_SIZE ==> i < |src|)
      invariant forall j :: 0 <= j < i ==> src[j] != 0
      invariant dest[at..at + i] == src[..i]
      invariant forall j :: 0 <= j < at || at + FNAME_SIZE <= j < dest.Length ==> dest[j] == old(dest[j])
    {
      dest[at + i] := src[i];
      i := i + 1;
      if i < FNAME_SIZE { InString(src, FNAME_SIZE, i); }
    }
    CutIs(src, FNAME_SIZE, i);
  }

  /** Copy at most 32 characters and fill up with zeros. */
  method StrNCpy(dest: array<byte>, at: nat, src: seq<byte>)
    requires at + FNAME_SIZE <= dest.Length && IsString(src, FNAME_SIZE)
    modifies dest
    ensures dest[at..at + FNAME_SIZE] == PaddedName(Cut(src, FNAME_SIZE))
    ensures forall j :: 0 <= j < at || at + FNAME_SIZE <= j < dest.Length ==> dest[j] == old(dest[j])
  {
    var i := CopyText(dest, at, src);
    ghost var name := dest[at..at + i];
    while i < FNAME_SIZE
      invariant |name| <= i <= FNAME_SIZE
      invariant dest[at..at + i] == name + Repeat(0, i - |name|)
      invariant forall j :: 0 <= j < at || at + FNAME_SIZE <= j < dest.Length ==> dest[j] == old(dest[j])
    {
      dest[at + i] := 0;
      i := i + 1;
    }
  }

  /** The scan for a free descriptor stops where the specification says. */
  lemma FirstFreeFdIs(files: seq<Fd>, fd: nat)
    requires fd <= |files| && forall i :: 0 <= i < fd ==> files[i].flags != 0
    ensures FirstFreeFd(files) >= fd
    ensures fd == |files| || files[fd].flags == 0 ==> FirstFreeFd(files) == fd
  {
  }

  /** With the name of entry i copied behind the names before it, the names up to it are in place. */
  lemma NameAppended(names: seq<seq<byte>>, i: nat, was: seq<byte>, buf: seq<byte>)
    requires ShortNames(names) && i < |names| && Listing(names[..i]) <= was
    requires |buf| == |was| >= (i + 1) * FNAME_SIZE && buf[..i * FNAME_SIZE] == was[..i * FNAME_SIZE]
    requires buf[i * FNAME_SIZE..i * FNAME_SIZE + FNAME_SIZE] == PaddedName(names[i])
    ensures Listing(names[..i + 1]) <= buf
  {
    ListingSnoc(names, i);
    assert buf[..(i + 1) * FNAME_SIZE] == Listing(names[..i]) + PaddedName(names[i]);
  }

  lemma SamePrefix(front: seq<byte>, was: seq<byte>, buf: seq<byte>, n: nat)
    requires front <= was && |front| <= n <= |was| && n <= |buf| && buf[..n] == was[..n]
    ensures front <= buf
  {
    assert front == was[..n][..|front|];
  }

  // ----- The calls -----

  class Files {
    const img: seq<byte>
    const base: nat
    const numDentries: nat
    const numInodes: nat
    const numBlocks: nat
    const dirBuf: array<byte>
    var dirLength: nat
    const files: array<Fd>

    ghost predicate Valid()
      reads this, dirBuf, files
    {
      && Usable(img, base)
      && numDentries == NumDentries(img) && numInodes == NumInodes(img) && numBlocks == NumBlocks(img)
      && dirBuf.Length == DIR_BUF_SIZE && dirLength <= DIR_BUF_SIZE
      && files.Length == MAX_FILE_NUM
      && (forall fd :: 0 <= fd < MAX_FILE_NUM ==> files[fd].pos < WORD)
      && TailIsZero()
    }

    /** Only names are ever stored in the directory buffer, at its front; the rest stays zero. */
    ghost predicate TailIsZero()
      requires Usable(img, base) && dirBuf.Length == DIR_BUF_SIZE
      reads this, dirBuf
    {
      forall k :: NumDentries(img) * FNAME_SIZE <= k < DIR_BUF_SIZE ==> dirBuf[k] == 0
    }

    ghost function Abs(): (t: Table)
      requires Valid()
      reads this, dirBuf, files
    {
      Table(files[..], dirBuf[..dirLength])
    }

    ghost function Vol(): (v: Volume)
      requires Valid()
      reads this, dirBuf, files
      ensures VolumeOk(v)
    {
      VolumeOf(img, base)
    }

    /** Find the file image, and make the descriptor table of a new process. */
    constructor (img: seq<byte>, base: nat)
      requires Usable(img, base)
      ensures Valid() && this.img == img && this.base == base && Abs() == NewTable([])
      ensures fresh(dirBuf) && fresh(files)
    {
      this.img, this.base := img, base;
      numDentries, numInodes, numBlocks := Word(img, 0), Word(img, 4), Word(img, 8);
      dirBuf := new byte[DIR_BUF_SIZE](_ => 0);
      dirLength := 0;
      files := new Fd[MAX_FILE_NUM](i => if i < 2 then TERMINAL_FD else CLOSED_FD);
    }

    /** Find a directory entry by its name. */
    method ReadDentryByName(name: seq<byte>) returns (r: int, d: Dentry)
      requires Valid() && IsString(name, FNAME_SIZE)
      ensures var k := FirstNamed(Names(img), Cut(name, FNAME_SIZE), 0);
        if k < NumDentries(img) then r == 0 && d == EntryAt(img, k) else r == -1
    {
      var i := 0;
      while i < numDentries
        invariant i <= numDentries
        invariant FirstNamed(Names(img), Cut(name, FNAME_SIZE), 0) == FirstNamed(Names(img), Cut(name, FNAME_SIZE), i)
      {
        var cur := EntryAt(img, i);
        var differ := StrNCmp(cur.fname, name, FNAME_SIZE);
        assert Names(img)[i] == Cut(cur.fname, FNAME_SIZE);
        if differ == 0 {
          return 0, cur;
        }
        i := i + 1;
      }
      return -1, Dentry([], 0, 0);
    }

    method ReadDentryByIndex(index: nat) returns (r: int, d: Dentry)
      requires Valid()
      ensures if index < NumDentries(img) then r == 0 && d == EntryAt(img, index) else r == -1
    {
      if index >= numDentries {
        return -1, Dentry([], 0, 0);
      }
      return 0, EntryAt(img, index);
    }

    /** One byte of a file, by way of its index node. */
    method ReadByte(inode: nat, p: nat) returns (ok: bool, b: byte)
      requires Valid() && inode < numInodes && p < FileSize(img, inode)
      ensures ok == GoodAt(img, inode, p) && (ok ==> b == ByteAt(img, inode, p))
    {
      InTable(img, inode, p);
      var blockNumber := ReadNumber((inode + 1) * BLOCK_SIZE, p / BLOCK_SIZE);
      if blockNumber >= numBlocks {
        return false, 0;
      }
      return true, img[(numInodes + 1 + blockNumber) * BLOCK_SIZE + p % BLOCK_SIZE];
    }

    /** An entry of the block number table of an index node. */
    method ReadNumber(node: nat, blockIndex: nat) returns (w: nat)
      requires node + 4 * (blockIndex + 2) <= |img|
      ensures w == Word(img, node + 4 * (blockIndex + 1))
    {
      w := Word(img, node + 4 * (blockIndex + 1));
    }

    /** Read a file from an offset into a buffer. Where a block does not exist the read fails, and the
        buffer keeps what was read before. */
    method ReadData(inode: nat, offset: nat, buf: array<byte>, length: nat) returns (r: int)
      requires Valid() && length <= buf.Length && buf != dirBuf
      modifies buf
      ensures r == ReadNode(img, inode, offset, length).result
      ensures r != -1 ==> buf[..r] == ReadNode(img, inode, offset, length).bytes
      ensures inode < NumInodes(img) ==> forall i :: 0 <= i < length ==> buf[i] == Seen(img, inode, offset, i)
      ensures forall i :: length <= i < buf.Length ==> buf[i] == old(buf[i])
    {
      if inode >= numInodes {
        return -1;
      }
      forall i | 0 <= i < length {
        buf[i] := 0;
      }
      var fileLength := Word(img, (inode + 1) * BLOCK_SIZE);
      if offset >= fileLength {
        return 0;
      }
      ghost var n := ReadLength(fileLength, offset, length);
      var i, endOfFile := 0, false;
      while i < length && !endOfFile
        invariant i <= n && (endOfFile <==> offset + i >= fileLength)
        invariant Readable(img, inode, offset, offset + i)
        invariant forall j :: 0 <= j < i ==> buf[j] == Seen(img, inode, offset, j)
        invariant forall j :: i <= j < length ==> buf[j] == 0
        invariant forall j :: length <= j < buf.Length ==> buf[j] == old(buf[j])
      {
        var ok, b := ReadByte(inode, offset + i);
        if !ok {
          assert !GoodAt(img, inode, offset + i);
          return -1;
        }
        buf[i] := b;
        endOfFile := offset + i + 1 >= fileLength;
        i := i + 1;
      }
      r := i;
    }

    /** Only one descriptor is assigned. */
    method SetFile(fd: nat, f: Fd)
      requires Valid() && fd < MAX_FILE_NUM && f.pos < WORD
      modifies files
      ensures Valid() && Abs() == old(Abs()).(files := old(files[..])[fd := f])
    {
      files[fd] := f;
    }

    method FileOpen(fd: nat, name: seq<byte>) returns (r: int)
      requires Valid() && fd < MAX_FILE_NUM && IsString(name, FNAME_SIZE)
      modifies files
      ensures Valid()
      ensures var v, k := Vol(), FirstNamed(Names(img), Cut(name, FNAME_SIZE), 0);
        if k < |v.names| && v.types[k] == REG_FILE
        then r == 0 && Abs() == old(Abs()).(files := old(files[..])[fd := Opened(v, k)])
        else r == -1 && Abs() == old(Abs())
    {
      var found, d := ReadDentryByName(name);
      if found == 0 && d.ftype == REG_FILE {
        SetFile(fd, Fd(FileFops, InodeAddress(base, d.inode), 0, 1));
        return 0;
      }
      return -1;
    }

    method FileRead(fd: nat, buf: array<byte>, nbytes: nat) returns (r: int)
      requires Valid() && fd < MAX_FILE_NUM && nbytes <= buf.Length && buf != dirBuf
      modifies files, buf
      ensures Valid()
      ensures var f := old(files[fd]);
        if f.flags != 1 || f.inodeP == 0 then r == -1 && Abs() == old(Abs())
        else
          var o := old(Vol()).read(f.inodeP, f.pos, nbytes);
          && r == o.result && (r != -1 ==> buf[..r] == o.bytes)
          && Abs() == old(Abs()).(files := old(files[..])[fd := f.(pos := Advance(f.pos, r))])
    {
      var f := files[fd];
      if f.flags != 1 || f.inodeP == 0 {
        return -1;
      }
      var node := InodeOf(base, f.inodeP);
      r := ReadData(node, f.pos, buf, nbytes);
      var pos := f.pos + (if r == -1 then WORD - 1 else r);
      SetFile(fd, f.(pos := if pos >= WORD then pos - WORD else pos));
    }

    method FileClose(fd: nat) returns (r: int)
      requires Valid() && fd < MAX_FILE_NUM
      modifies files
      ensures Valid() && r == 0 && Abs() == old(Abs()).(files := old(files[..])[fd := CLOSED_FD])
    {
      SetFile(fd, CLOSED_FD);
      r := 0;
    }

    method DirRead(fd: nat, buf: array<byte>, nbytes: nat) returns (r: int)
      requires Valid() && fd < MAX_FILE_NUM && nbytes <= buf.Length && buf != dirBuf
      modifies files, buf
      ensures Valid()
      ensures var f, dir := old(files[fd]), old(Abs()).dir;
        var o := ListingRead(dir, f.pos, nbytes);
        && r == o.result && buf[..r] == o.bytes
        && (f.pos < |dir| ==> var k := AtMost(nbytes, |dir| - f.pos); buf[..k] == dir[f.pos..f.pos + k])
        && Abs() == old(Abs()).(files := old(files[..])[fd :=
             f.(pos := if f.pos + nbytes < |dir| then f.pos + nbytes else |dir|)])
    {
      var f := files[fd];
      ghost var dir := dirBuf[..dirLength];
      var endOfFile := f.pos >= dirLength;
      var i := 0;
      while i < nbytes && !endOfFile
        modifies buf
        invariant i <= nbytes && (i > 0 ==> f.pos + i <= |dir|)
        invariant endOfFile <==> f.pos + i >= |dir|
        invariant f.pos < |dir| ==> buf[..i] == dir[f.pos..f.pos + i]
        invariant i == 0 || f.pos < |dir|
      {
        buf[i] := dirBuf[f.pos + i];
        endOfFile := f.pos + i + 1 >= dirLength;
        i := i + 1;
      }
      if endOfFile {
        SetFile(fd, f.(pos := dirLength));
        return 0;
      }
      SetFile(fd, f.(pos := f.pos + nbytes));
      return i;
    }

    /** The length of the text at the front of the directory buffer. A first name of 32 bytes runs on into
        the names after it, but never to the end of the buffer. */
    method DirBufStrLen() returns (len: nat)
      requires Valid() && FitsBuffer(Names(img))
      ensures len == TextLength(dirBuf[..]) <= NumDentries(img) * FNAME_SIZE
    {
      ghost var end := NumDentries(img) * FNAME_SIZE;
      assert dirBuf[end] == 0;
      len := 0;
      while dirBuf[len] != 0
        invariant len <= end
        invariant forall k :: 0 <= k < len ==> dirBuf[k] != 0
        decreases end - len
      {
        len := len + 1;
      }
      assert dirBuf[..][len] == 0;
    }

    /** The first i names stand in the buffer. */
    ghost predicate HasNames(i: nat)
      requires Valid() && i <= NumDentries(img)
      reads this, dirBuf, files
    {
      Listing(Names(img)[..i]) <= dirBuf[..]
    }

    /** The first i names have been stored. */
    ghost predicate Stored(i: nat)
      requires Valid()
      reads this, dirBuf, files
    {
      i <= NumDentries(img) && dirLength == i * FNAME_SIZE && HasNames(i)
    }

    /** Store the name of directory entry i after the ones before. */
    method AddName(i: nat)
      requires Valid() && FitsBuffer(Names(img)) && i < NumDentries(img) && Stored(i)
      modifies this`dirLength, dirBuf
      ensures Valid() && Stored(i + 1)
    {
      CopyName(i);
      PadName(i);
      dirLength := dirLength + FNAME_SIZE;
    }

    /** Copy the name of directory entry i into the directory buffer. */
    method CopyName(i: nat)
      requires Valid() && i < NumDentries(img) && Stored(i) && (i + 1) * FNAME_SIZE <= DIR_BUF_SIZE
      modifies dirBuf
      ensures Valid() && HasNames(i + 1)
    {
      ghost var was := dirBuf[..];
      var r, d := ReadDentryByIndex(i);
      StrNCpy(dirBuf, dirLength, d.fname);
      assert Valid();
      assert dirBuf[..dirLength] == was[..dirLength];
      assert Names(img)[i] == Cut(d.fname, FNAME_SIZE);
      NameAppended(Names(img), i, was, dirBuf[..]);
    }

    /** The padding loop writes beyond the name that was copied last, or not at all. */
    method PadName(i: nat)
      requires Valid() && FitsBuffer(Names(img)) && i < NumDentries(img)
      requires dirLength == i * FNAME_SIZE && HasNames(i + 1)
      modifies dirBuf
      ensures Valid() && HasNames(i + 1)
    {
      ghost var was, end := dirBuf[..], dirLength + FNAME_SIZE;
      EntryFits(Names(img), was, i);
      var j := DirBufStrLen();
      while j < (i + 1) * FNAME_SIZE
        invariant Valid() && dirBuf[..end] == was[..end]
        invariant TextLength(was) <= j
      {
        assert PaddingIndex(i, j) < DIR_BUF_SIZE;
        dirBuf[dirLength + FNAME_SIZE + j] := 0;
        j := j + 1;
      }
      SamePrefix(Listing(Names(img)[..i + 1]), was, dirBuf[..], end);
    }

    method DirOpen(fd: nat, name: seq<byte>) returns (r: int)
      requires Valid() && fd < MAX_FILE_NUM && IsString(name, FNAME_SIZE)
      requires NamesDirectory(img, name) ==> FitsBuffer(Names(img))
      modifies this`dirLength, dirBuf, files
      ensures Valid()
      ensures var v, k := Vol(), FirstNamed(Names(img), Cut(name, FNAME_SIZE), 0);
        if k < |v.names| && v.types[k] == DIR_FILE
        then r == 0 && Abs() == Table(old(files[..])[fd := Opened(v, k)], Listing(v.names))
        else r == -1 && Abs() == old(Abs())
    {
      var found, d := ReadDentryByName(name);
      if found == 0 && d.ftype == DIR_FILE {
        SetFile(fd, Fd(DirFops, 0, 0, 1));
        FillDirBuf();
        return 0;
      }
      return -1;
    }

    /** Store all the file names. */
    method FillDirBuf()
      requires Valid() && FitsBuffer(Names(img))
      modifies this`dirLength, dirBuf
      ensures Valid() && Abs() == old(Abs()).(dir := Listing(Names(img)))
    {
      dirLength := 0;
      var i := 0;
      while i < numDentries
        invariant i <= numDentries && Valid() && Stored(i)
      {
        AddName(i);
        i := i + 1;
      }
      assert Names(img)[..i] == Names(img);
      assert dirBuf[..dirLength] == Listing(Names(img));
    }

    /** The first descriptor that is not in use. */
    method FreeFd() returns (fd: nat)
      requires Valid()
      ensures fd == FirstFreeFd(files[..])
    {
      fd := 0;
      FirstFreeFdIs(files[..], 0);
      while fd < MAX_FILE_NUM && files[fd].flags != 0
        invariant fd <= MAX_FILE_NUM && forall i :: 0 <= i < fd ==> files[i].flags != 0
      {
        fd := fd + 1;
      }
      FirstFreeFdIs(files[..], fd);
    }

    method Open(name: seq<byte>) returns (r: int)
      requires Valid() && IsString(name, FNAME_SIZE)
      requires NamesDirectory(img, name) ==> FitsBuffer(Names(img))
      modifies this`dirLength, dirBuf, files
      ensures Valid()
      ensures var (t, o) := Step(old(Vol()), old(Abs()), Call.Open(name)); Abs() == t && r == o.result
    {
      var found, d := ReadDentryByName(name);
      if found != 0 {
        return ERROR;
      }
      var fd := FreeFd();
      if fd >= MAX_FILE_NUM {
        return ERROR;
      }
      if d.ftype == RTC_FILE {
        SetFile(fd, Fd(RtcFops, 0, 0, 1));
      } else if d.ftype == DIR_FILE {
        var _ := DirOpen(fd, name);
      } else if d.ftype == REG_FILE {
        var _ := FileOpen(fd, name);
      } else {
        return ERROR;
      }
      r := fd;
    }

    /** `typed` is what the terminal delivers if the descriptor is one. */
    method Read(fd: int, buf: array<byte>, nbytes: nat, typed: seq<byte>) returns (r: int)
      requires Valid() && nbytes <= buf.Length && |typed| <= buf.Length && buf != dirBuf
      modifies files, buf
      ensures Valid()
      ensures var (t, o) := Step(old(Vol()), old(Abs()), Call.Read(fd, nbytes, typed));
        Abs() == t && r == o.result && (r != -1 ==> buf[..r] == o.bytes)
    {
      if fd < 0 || fd >= MAX_FILE_NUM {
        return ERROR;
      }
      if fd == 1 || files[fd].flags == 0 {
        return ERROR;
      }
      match files[fd].fops {
        case TerminalFops =>
          forall i | 0 <= i < |typed| {
            buf[i] := typed[i];
          }
          r := |typed|;
        case RtcFops => r := 0;
        case DirFops => r := DirRead(fd, buf, nbytes);
        case FileFops => r := FileRead(fd, buf, nbytes);
        case NoFops => r := ERROR;
      }
    }

    method Close(fd: int) returns (r: int)
      requires Valid()
      modifies files
      ensures Valid()
      ensures var (t, o) := Step(old(Vol()), old(Abs()), Call.Close(fd)); Abs() == t && r == o.result
    {
      if fd < 2 || fd >= MAX_FILE_NUM {
        return ERROR;
      }
      if files[fd].flags == 0 {
        return ERROR;
      }
      r := FileClose(fd);
    }
  }
}
