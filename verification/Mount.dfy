/** The volume that a file system image at an address in memory presents to open, read and close. */
module Mount {
  import opened FileSystem
  import opened Descriptors
  import opened Sequences

  /** The image fits in memory. */
  ghost predicate Usable(img: seq<byte>, base: nat) {
    WellFormed(img) && 0 < base && base + |img| <= WORD
  }

  /** The name is that of a directory. */
  ghost predicate NamesDirectory(img: seq<byte>, name: seq<byte>)
    requires WellFormed(img)
  {
    var k := FirstNamed(Names(img), Cut(name, FNAME_SIZE), 0);
    k < NumDentries(img) && EntryAt(img, k).ftype == DIR_FILE
  }

  /** A read through an index node: the bytes, or an error when the node or a block does not exist. */
  ghost function ReadNode(img: seq<byte>, inode: nat, pos: nat, nbytes: nat): Outcome
    requires WellFormed(img)
  {
    if inode >= NumInodes(img) then Outcome(ERROR, [])
    else
      var n := ReadLength(FileSize(img, inode), pos, nbytes);
      if !Readable(img, inode, pos, pos + n) then Outcome(ERROR, [])
      else Outcome(n, seq(n, i requires 0 <= i < n => Seen(img, inode, pos, i)))
  }

  ghost function VolumeOf(img: seq<byte>, base: nat): (v: Volume)
    requires WellFormed(img)
    ensures VolumeOk(v)
  {
    Volume(
      Names(img),
      seq(NumDentries(img), i requires 0 <= i < NumDentries(img) => EntryAt(img, i).ftype),
      seq(NumDentries(img), i requires 0 <= i < NumDentries(img) => InodeAddress(base, EntryAt(img, i).inode)),
      (address: nat, pos: nat, nbytes: nat) => ReadNode(img, InodeOf(base, address), pos, nbytes)
    )
  }

  /** A read of a file all of whose blocks exist is the slice of its contents. */
  lemma ReadNodeSlice(img: seq<byte>, inode: nat, pos: nat, nbytes: nat)
    requires WellFormed(img) && FileGood(img, inode) && pos <= FileSize(img, inode)
    ensures var n := ReadLength(FileSize(img, inode), pos, nbytes);
      ReadNode(img, inode, pos, nbytes) == Outcome(n, FileBytes(img, inode)[pos..pos + n])
  {
    var n := ReadLength(FileSize(img, inode), pos, nbytes);
    var buf := seq(n, i requires 0 <= i < n => Seen(img, inode, pos, i));
    ReadsSlice(img, inode, pos, n, buf);
    assert buf[..n] == buf;
  }

  /** No read from within a file ever fails exactly when all its blocks exist. */
  lemma ReadsNeverFail(img: seq<byte>, inode: nat)
    requires WellFormed(img) && inode < NumInodes(img)
    ensures (forall pos: nat, nbytes: nat :: pos <= FileSize(img, inode) ==> ReadNode(img, inode, pos, nbytes).result != ERROR)
       <==> FileGood(img, inode)
  {
    if FileGood(img, inode) {
      forall pos: nat, nbytes: nat | pos <= FileSize(img, inode)
        ensures ReadNode(img, inode, pos, nbytes).result != ERROR
      {
        ReadNodeSlice(img, inode, pos, nbytes);
      }
    } else {
      var size := FileSize(img, inode);
      var k :| 0 <= k < BlockCount(size) && BlockNumber(img, inode, k) >= NumBlocks(img);
      var pos := k * BLOCK_SIZE;
      assert !GoodAt(img, inode, pos);
      assert ReadNode(img, inode, pos, 1).result == ERROR;
    }
  }

  /** The volume delivers, through the address of its index node, each file all of whose blocks exist. */
  lemma FileDelivers(img: seq<byte>, base: nat, inode: nat)
    requires Usable(img, base) && FileGood(img, inode)
    ensures Delivers(VolumeOf(img, base), InodeAddress(base, inode), FileBytes(img, inode))
  {
    var v, address, file := VolumeOf(img, base), InodeAddress(base, inode), FileBytes(img, inode);
    ValidInodeRecovered(img, base, inode);
    forall pos: nat, nbytes: nat
      ensures DeliversAt(v, address, file, pos, nbytes)
    {
      if pos <= |file| { ReadNodeSlice(img, inode, pos, nbytes); }
    }
  }

  /** A file whose index node does not exist cannot be read at all. */
  lemma MissingNodeFails(img: seq<byte>, base: nat, inode: nat, pos: nat, nbytes: nat)
    requires WellFormed(img) && NumInodes(img) <= inode < NODE_ADDRESSES - 1
    ensures VolumeOf(img, base).read(InodeAddress(base, inode), pos, nbytes) == Outcome(-1, [])
  {
    InodeRecovered(base, inode);
  }

  /** Open a regular file by name and read it in pieces of any sizes, with any other calls in between:
      the pieces make up a prefix of the concatenation of its blocks. */
  lemma ReadsAreAPrefixOfTheFile(img: seq<byte>, base: nat, t: Table, name: seq<byte>,
                                 ts: seq<Table>, os: seq<Outcome>, cs: seq<Call>, n: nat, fd: int, k: nat)
    requires Usable(img, base) && TableOk(t)
    requires k < NumDentries(img) && k == FirstNamed(Names(img), Cut(name, FNAME_SIZE), 0)
    requires EntryAt(img, k).ftype == REG_FILE && FileGood(img, EntryAt(img, k).inode)
    requires IsRun(VolumeOf(img, base), ts, os, cs) && n <= |cs|
    requires Step(VolumeOf(img, base), t, Open(name)) == (ts[0], Outcome(fd, [])) && fd != ERROR && NeverCloses(cs, fd)
    ensures var file := FileBytes(img, EntryAt(img, k).inode);
      Delivered(os, cs, fd, n) == file[..AtMost(Asked(cs, fd, n), |file|)]
  {
    var v, inode := VolumeOf(img, base), EntryAt(img, k).inode;
    OpenOutcome(v, t, name);
    assert ts[0].files[fd] == Fd(FileFops, InodeAddress(base, inode), 0, 1);
    FileDelivers(img, base, inode);
    OpenedFileReadsPrefix(v, t, name, ts, os, cs, n, fd, FileBytes(img, inode));
  }
}
