/** Files some of whose blocks do not exist: when the reads of a run still come in order. */
module MissingBlocks {
  import opened FileSystem
  import opened Descriptors
  import opened Mount
  import opened Sequences

  /** How many blocks there are before the first one that does not exist, counted on from k. */
  ghost function GoodBlocks(img: seq<byte>, inode: nat, k: nat): (count: nat)
    requires WellFormed(img) && inode < NumInodes(img) && BlocksGood(img, inode, k)
    ensures k <= count && BlocksGood(img, inode, count)
    ensures count == BlockCount(FileSize(img, inode)) || BlockNumber(img, inode, count) >= NumBlocks(img)
    decreases BlockCount(FileSize(img, inode)) - k
  {
    if k == BlockCount(FileSize(img, inode)) || BlockNumber(img, inode, k) >= NumBlocks(img) then k
    else GoodBlocks(img, inode, k + 1)
  }

  /** The first block that does not exist is block k. */
  ghost predicate FirstMissing(img: seq<byte>, inode: nat, k: nat)
    requires WellFormed(img)
  {
    && inode < NumInodes(img) && k < BlockCount(FileSize(img, inode)) && BlocksGood(img, inode, k)
    && BlockNumber(img, inode, k) >= NumBlocks(img)
  }

  /** The bytes of a file before its first missing block. */
  ghost function ReadableBytes(img: seq<byte>, inode: nat): seq<byte>
    requires WellFormed(img) && inode < NumInodes(img)
  {
    var count := GoodBlocks(img, inode, 0);
    FirstBlocks(img, inode, count)[..AtMost(count * BLOCK_SIZE, FileSize(img, inode))]
  }

  /** Before the first missing block a read finds the bytes of the blocks that exist. */
  lemma ByteBeforeMissing(img: seq<byte>, inode: nat, k: nat, p: nat)
    requires WellFormed(img) && FirstMissing(img, inode, k) && p < k * BLOCK_SIZE
    ensures p < FileSize(img, inode) && GoodAt(img, inode, p)
    ensures ByteAt(img, inode, p) == FirstBlocks(img, inode, k)[p]
  {
    var b, r := p / BLOCK_SIZE, p % BLOCK_SIZE;
    assert p == b * BLOCK_SIZE + r;
    FirstBlocksAt(img, inode, k, b, r);
  }

  lemma ReadBeforeMissing(img: seq<byte>, inode: nat, k: nat, pos: nat, nbytes: nat)
    requires WellFormed(img) && FirstMissing(img, inode, k) && pos + nbytes <= k * BLOCK_SIZE
    ensures ReadNode(img, inode, pos, nbytes) == Outcome(nbytes, FirstBlocks(img, inode, k)[pos..pos + nbytes])
  {
    forall p | pos <= p < pos + nbytes
      ensures p < FileSize(img, inode) && GoodAt(img, inode, p)
      ensures ByteAt(img, inode, p) == FirstBlocks(img, inode, k)[p]
    {
      ByteBeforeMissing(img, inode, k, p);
    }
    forall i | 0 <= i < nbytes
      ensures Seen(img, inode, pos, i) == FirstBlocks(img, inode, k)[pos + i]
    {
      assert Readable(img, inode, pos, pos + i + 1);
    }
  }

  lemma ReadAtMissing(img: seq<byte>, inode: nat, k: nat, nbytes: nat)
    requires WellFormed(img) && FirstMissing(img, inode, k) && nbytes > 0
    ensures ReadNode(img, inode, k * BLOCK_SIZE, nbytes) == Outcome(ERROR, [])
  {
    assert !GoodAt(img, inode, k * BLOCK_SIZE);
  }

  /** Through the stored address: a read that ends before the missing block, and one that starts there. */
  lemma VolumeReadBefore(img: seq<byte>, base: nat, inode: nat, k: nat, pos: nat, bytes: seq<byte>)
    requires Usable(img, base) && FirstMissing(img, inode, k)
    requires pos + |bytes| <= k * BLOCK_SIZE && bytes == FirstBlocks(img, inode, k)[pos..pos + |bytes|]
    ensures InodeAddress(base, inode) != 0
    ensures VolumeOf(img, base).read(InodeAddress(base, inode), pos, |bytes|) == Outcome(|bytes|, bytes)
  {
    ValidInodeRecovered(img, base, inode);
    ReadBeforeMissing(img, inode, k, pos, |bytes|);
  }

  lemma VolumeReadAt(img: seq<byte>, base: nat, inode: nat, k: nat, nbytes: nat)
    requires Usable(img, base) && FirstMissing(img, inode, k) && nbytes > 0
    ensures VolumeOf(img, base).read(InodeAddress(base, inode), k * BLOCK_SIZE, nbytes) == Outcome(ERROR, [])
  {
    ValidInodeRecovered(img, base, inode);
    ReadAtMissing(img, inode, k, nbytes);
  }

  // ----- Runs of reads -----

  /** In this run a descriptor of the file, at its start, is read and never closed. */
  ghost predicate RunFromStart(v: Volume, ts: seq<Table>, os: seq<Outcome>, cs: seq<Call>, fd: int, address: nat)
    requires VolumeOk(v)
  {
    && IsRun(v, ts, os, cs) && 2 <= fd < MAX_FILE_NUM && NeverCloses(cs, fd)
    && ts[0].files[fd] == Fd(FileFops, address, 0, 1)
  }

  /** Whatever the run, what is read is a prefix of these bytes. */
  ghost predicate ReadInOrder(v: Volume, address: nat, bytes: seq<byte>)
    requires VolumeOk(v)
  {
    forall ts: seq<Table>, os: seq<Outcome>, cs: seq<Call>, fd: int ::
      RunFromStart(v, ts, os, cs, fd, address) ==> Delivered(os, cs, fd, |cs|) <= bytes
  }

  lemma FileReadBy(v: Volume, t: Table, fd: int, nbytes: nat, f: Fd, o: Outcome)
    requires VolumeOk(v) && TableOk(t) && 2 <= fd < MAX_FILE_NUM && t.files[fd] == f
    requires f.fops == FileFops && f.flags == 1 && f.inodeP != 0 && v.read(f.inodeP, f.pos, nbytes) == o
    ensures Step(v, t, Read(fd, nbytes, [])) == (t.(files := t.files[fd := f.(pos := Advance(f.pos, o.result))]), o)
  {
  }

  /** Through this address these bytes can be read, all at once or the last of them alone, but not the next. */
  ghost predicate FailsAfter(v: Volume, address: nat, bytes: seq<byte>) {
    && address != 0 && bytes != []
    && v.read(address, 0, |bytes|) == Outcome(|bytes|, bytes)
    && v.read(address, |bytes|, 1) == Outcome(ERROR, [])
    && v.read(address, |bytes| - 1, 1) == Outcome(1, [bytes[|bytes| - 1]])
  }

  lemma MissingBlockFails(img: seq<byte>, base: nat, inode: nat, k: nat)
    requires Usable(img, base) && FirstMissing(img, inode, k) && k > 0
    ensures FailsAfter(VolumeOf(img, base), InodeAddress(base, inode), FirstBlocks(img, inode, k))
  {
    var blocks := FirstBlocks(img, inode, k);
    var last := [blocks[|blocks| - 1]];
    assert blocks == blocks[0..0 + |blocks|] && last == blocks[|blocks| - 1..|blocks| - 1 + 1];
    VolumeReadBefore(img, base, inode, k, 0, blocks);
    VolumeReadAt(img, base, inode, k, 1);
    VolumeReadBefore(img, base, inode, k, |blocks| - 1, last);
  }

  /** Read up to where reading fails, then one byte, then one byte again: the failed read in the middle makes
      the last byte come a second time. */
  lemma FailedReadRepeatsByte(v: Volume, t: Table, fd: int, f: Fd, bytes: seq<byte>)
    returns (ts: seq<Table>, os: seq<Outcome>, cs: seq<Call>)
    requires VolumeOk(v) && TableOk(t) && 2 <= fd < MAX_FILE_NUM && t.files[fd] == f
    requires f == Fd(FileFops, f.inodeP, 0, 1) && FailsAfter(v, f.inodeP, bytes)
    ensures RunFromStart(v, ts, os, cs, fd, f.inodeP) && ts[0] == t
    ensures Delivered(os, cs, fd, |cs|) == bytes + [bytes[|bytes| - 1]]
  {
    var end := |bytes|;
    var o0, o1, o2 := Outcome(end, bytes), Outcome(ERROR, []), Outcome(1, [bytes[end - 1]]);
    var t1 := t.(files := t.files[fd := f.(pos := end)]);
    var t2 := t1.(files := t1.files[fd := f.(pos := end - 1)]);
    var t3 := t2.(files := t2.files[fd := f.(pos := end)]);
    FileReadBy(v, t, fd, end, f, o0);
    FileReadBy(v, t1, fd, 1, f.(pos := end), o1);
    FileReadBy(v, t2, fd, 1, f.(pos := end - 1), o2);
    cs := [Read(fd, end, []), Read(fd, 1, []), Read(fd, 1, [])];
    ts, os := [t, t1, t2, t3], [o0, o1, o2];
    DeliveredByThree(os, cs, fd);
  }

  /** So a missing block that is not the first one makes the byte before it come twice. */
  lemma MissingBlockRepeatsByte(img: seq<byte>, base: nat, inode: nat, k: nat, t: Table, fd: int)
    returns (ts: seq<Table>, os: seq<Outcome>, cs: seq<Call>)
    requires Usable(img, base) && FirstMissing(img, inode, k) && k > 0
    requires TableOk(t) && 2 <= fd < MAX_FILE_NUM && t.files[fd] == Fd(FileFops, InodeAddress(base, inode), 0, 1)
    ensures RunFromStart(VolumeOf(img, base), ts, os, cs, fd, InodeAddress(base, inode)) && ts[0] == t
    ensures var blocks := FirstBlocks(img, inode, k);
      Delivered(os, cs, fd, |cs|) == blocks + [blocks[|blocks| - 1]]
  {
    MissingBlockFails(img, base, inode, k);
    ts, os, cs := FailedReadRepeatsByte(VolumeOf(img, base), t, fd, t.files[fd], FirstBlocks(img, inode, k));
  }

  lemma DeliveredByThree(os: seq<Outcome>, cs: seq<Call>, fd: int)
    requires |os| == |cs| == 3 && forall i :: 0 <= i < 3 ==> IsRead(cs[i], fd)
    ensures Delivered(os, cs, fd, 3) == os[0].bytes + os[1].bytes + os[2].bytes
  {
    assert Delivered(os, cs, fd, 1) == os[0].bytes;
    assert Delivered(os, cs, fd, 2) == os[0].bytes + os[1].bytes;
  }

  /** The descriptor is at the first or at the largest position. */
  ghost predicate AtAnEnd(f: Fd, address: nat) {
    f == Fd(FileFops, address, f.pos, 1) && (f.pos == 0 || f.pos == WORD - 1)
  }

  /** One call, when the very first block is missing: nothing is delivered, and the position stays at 0 or goes
      to the largest one, where it remains. */
  lemma CallReadsNothing(img: seq<byte>, base: nat, inode: nat, t: Table, c: Call, fd: int)
    requires Usable(img, base) && FirstMissing(img, inode, 0)
    requires TableOk(t) && 2 <= fd < MAX_FILE_NUM && c != Close(fd)
    requires AtAnEnd(t.files[fd], InodeAddress(base, inode))
    ensures var (t', o) := Step(VolumeOf(img, base), t, c);
      AtAnEnd(t'.files[fd], InodeAddress(base, inode)) && (IsRead(c, fd) ==> o.bytes == [])
  {
    if IsRead(c, fd) {
      ValidInodeRecovered(img, base, inode);
      if t.files[fd].pos == 0 && c.nbytes > 0 { ReadAtMissing(img, inode, 0, c.nbytes); }
    } else {
      OthersUntouched(VolumeOf(img, base), t, c, fd);
    }
  }

  lemma {:induction false} MissingFirstBlockReadsNothing(img: seq<byte>, base: nat, inode: nat,
                                                         ts: seq<Table>, os: seq<Outcome>, cs: seq<Call>, fd: int, n: nat)
    requires Usable(img, base) && FirstMissing(img, inode, 0) && n <= |cs|
    requires RunFromStart(VolumeOf(img, base), ts, os, cs, fd, InodeAddress(base, inode))
    ensures Delivered(os, cs, fd, n) == [] && TableOk(ts[n]) && AtAnEnd(ts[n].files[fd], InodeAddress(base, inode))
  {
    if n > 0 {
      var v := VolumeOf(img, base);
      MissingFirstBlockReadsNothing(img, base, inode, ts, os, cs, fd, n - 1);
      assert Called(v, ts, os, cs, n - 1);
      StepKeepsTable(v, ts[n - 1], cs[n - 1]);
      CallReadsNothing(img, base, inode, ts[n - 1], cs[n - 1], fd);
    }
  }

  /** On every run the bytes read through a descriptor come in order and once each, exactly when all the
      blocks of the file exist, or not even its first. */
  lemma ReadInOrderExactly(img: seq<byte>, base: nat, inode: nat)
    requires Usable(img, base) && inode < NumInodes(img)
    ensures ReadInOrder(VolumeOf(img, base), InodeAddress(base, inode), ReadableBytes(img, inode))
       <==> FileGood(img, inode) || FirstMissing(img, inode, 0)
  {
    var v, address, bytes := VolumeOf(img, base), InodeAddress(base, inode), ReadableBytes(img, inode);
    var k := GoodBlocks(img, inode, 0);
    if FileGood(img, inode) || FirstMissing(img, inode, 0) {
      forall ts: seq<Table>, os: seq<Outcome>, cs: seq<Call>, fd: int | RunFromStart(v, ts, os, cs, fd, address)
        ensures Delivered(os, cs, fd, |cs|) <= bytes
      {
        if FileGood(img, inode) {
          FileDelivers(img, base, inode);
          RunReadsFile(v, ts, os, cs, |cs|, fd, ts[0].files[fd], FileBytes(img, inode));
        } else {
          MissingFirstBlockReadsNothing(img, base, inode, ts, os, cs, fd, |cs|);
        }
      }
    } else {
      var t := NewTable([]);
      var t0 := t.(files := t.files[2 := Fd(FileFops, address, 0, 1)]);
      var ts, os, cs := MissingBlockRepeatsByte(img, base, inode, k, t0, 2);
      assert |Delivered(os, cs, 2, |cs|)| > |bytes|;
    }
  }
}
