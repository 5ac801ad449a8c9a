/** The file system image as it is written: what a disk holds, byte by byte, and that what is read from it
    is what was stored. */
module ImageFormat {
  import opened FileSystem
  import opened Descriptors
  import opened Mount
  import opened Sequences

  /** Directory entries, the contents of the files by index node, the numbers of the data blocks that hold
      each of them, and the data blocks. */
  datatype Disk = Disk(entries: seq<Dentry>, files: seq<seq<byte>>, places: seq<seq<nat>>, data: seq<seq<byte>>)

  // ----- Contents in blocks -----

  /** How many blocks of 4096 bytes so many bytes take. */
  function BlocksFor(size: nat): nat {
    (size + 4095) / 4096
  }

  /** The k-th 4096 bytes of a file, the last ones filled up with zeros. */
  function Chunk(contents: seq<byte>, k: nat): (c: seq<byte>)
    requires k < BlocksFor(|contents|)
    ensures |c| == 4096
  {
    var from := k * 4096;
    Padded(contents[from..AtMost(from + 4096, |contents|)], 4096, 0)
  }

  ghost predicate EntryFits(e: Dentry) {
    |e.fname| <= 32 && 0 !in e.fname && e.ftype < WORD && e.inode < WORD
  }

  /** The blocks of file i lie at its places. */
  ghost predicate Stored(d: Disk, i: nat)
    requires i < |d.files| == |d.places|
  {
    && |d.places[i]| == BlocksFor(|d.files[i]|) <= 1023
    && forall k :: 0 <= k < |d.places[i]| ==>
         d.places[i][k] < |d.data| && d.data[d.places[i][k]] == Chunk(d.files[i], k)
  }

  /** What fits the format and 32-bit memory. Blocks may lie in any order, unused or shared. */
  ghost predicate DiskOk(d: Disk) {
    && |d.entries| <= 63 && |d.places| == |d.files|
    && (1 + |d.files| + |d.data|) * 4096 < WORD
    && (forall i :: 0 <= i < |d.entries| ==> EntryFits(d.entries[i]))
    && (forall i :: 0 <= i < |d.files| ==> Stored(d, i))
    && AllOfSize(d.data, 4096)
  }

  // ----- Every list of files fits on a disk -----

  function Chunks(contents: seq<byte>): (cs: seq<seq<byte>>)
    ensures AllOfSize(cs, 4096) && |cs| == BlocksFor(|contents|)
  {
    seq(BlocksFor(|contents|), k requires 0 <= k < BlocksFor(|contents|) => Chunk(contents, k))
  }

  /** The blocks of all files, one file after the other. */
  function AllChunks(files: seq<seq<byte>>): (cs: seq<seq<byte>>)
    ensures AllOfSize(cs, 4096)
    decreases |files|
  {
    if files == [] then [] else AllChunks(files[..|files| - 1]) + Chunks(files[|files| - 1])
  }

  lemma {:induction false} ChunksOf(files: seq<seq<byte>>, i: nat)
    requires i < |files|
    ensures AllChunks(files[..i]) + Chunks(files[i]) <= AllChunks(files)
    decreases |files|
  {
    var front := files[..|files| - 1];
    if i < |front| {
      ChunksOf(front, i);
      assert front[..i] == files[..i];
    } else {
      assert files[..i] == front;
    }
  }

  /** Packing files block after block makes a disk, if they are small enough. */
  function Packed(entries: seq<Dentry>, files: seq<seq<byte>>): Disk {
    Disk(entries, files,
         seq(|files|, i requires 0 <= i < |files| =>
           seq(BlocksFor(|files[i]|), k requires 0 <= k < BlocksFor(|files[i]|) => |AllChunks(files[..i])| + k)),
         AllChunks(files))
  }

  lemma PackedIsOk(entries: seq<Dentry>, files: seq<seq<byte>>)
    requires |entries| <= 63 && (1 + |files| + |AllChunks(files)|) * 4096 < WORD
    requires forall i :: 0 <= i < |entries| ==> EntryFits(entries[i])
    requires forall i :: 0 <= i < |files| ==> BlocksFor(|files[i]|) <= 1023
    ensures DiskOk(Packed(entries, files))
  {
    var d := Packed(entries, files);
    forall i | 0 <= i < |files|
      ensures Stored(d, i)
    {
      ChunksOf(files, i);
      var before := AllChunks(files[..i]);
      forall k | 0 <= k < |d.places[i]|
        ensures d.places[i][k] < |d.data| && d.data[d.places[i][k]] == Chunk(files[i], k)
      {
        assert (before + Chunks(files[i]))[|before| + k] == Chunks(files[i])[k];
      }
    }
  }

  // ----- The bytes -----

  function LittleEndian(n: nat): (b: seq<byte>)
    requires n < WORD
    ensures |b| == 4
  {
    [n % 0x100, n / 0x100 % 0x100, n / 0x1_0000 % 0x100, n / 0x100_0000]
  }

  /** The start of the boot block: three counts. */
  function Header(entries: nat, nodes: nat, blocks: nat): (b: seq<byte>)
    requires entries < WORD && nodes < WORD && blocks < WORD
    ensures |b| == 64
  {
    LittleEndian(entries) + LittleEndian(nodes) + LittleEndian(blocks) + Repeat(0, 52)
  }

  /** A directory entry: name, type, index node, reserved bytes. */
  function EntryBytes(e: Dentry): (b: seq<byte>)
    requires |e.fname| <= 32 && e.ftype < WORD && e.inode < WORD
    ensures |b| == 64
  {
    Padded(e.fname, 32, 0) + LittleEndian(e.ftype) + LittleEndian(e.inode) + Repeat(0, 24)
  }

  ghost function BootRows(d: Disk): (rows: seq<seq<byte>>)
    requires DiskOk(d)
    ensures AllOfSize(rows, 64) && |rows| == 1 + |d.entries|
  {
    [Header(|d.entries|, |d.files|, |d.data|)]
    + seq(|d.entries|, i requires 0 <= i < |d.entries| => assert EntryFits(d.entries[i]); EntryBytes(d.entries[i]))
  }

  ghost function BootBlock(d: Disk): (b: seq<byte>)
    requires DiskOk(d)
    ensures |b| == 4096
  {
    ConcatSize(BootRows(d), 64);
    Padded(Concat(BootRows(d)), 4096, 0)
  }

  ghost function NodeWords(d: Disk, i: nat): (words: seq<seq<byte>>)
    requires DiskOk(d) && i < |d.files|
    ensures AllOfSize(words, 4) && |words| == 1 + |d.places[i]| <= 1024
  {
    assert Stored(d, i);
    [LittleEndian(|d.files[i]|)]
    + seq(|d.places[i]|, k requires 0 <= k < |d.places[i]| => LittleEndian(d.places[i][k]))
  }

  /** An index node: the length of the file and the numbers of its blocks. */
  ghost function NodeBlock(d: Disk, i: nat): (b: seq<byte>)
    requires DiskOk(d) && i < |d.files|
    ensures |b| == 4096
  {
    ConcatSize(NodeWords(d, i), 4);
    Padded(Concat(NodeWords(d, i)), 4096, 0)
  }

  ghost function Blocks(d: Disk): (blocks: seq<seq<byte>>)
    requires DiskOk(d)
    ensures AllOfSize(blocks, 4096) && |blocks| == 1 + |d.files| + |d.data|
  {
    [BootBlock(d)] + seq(|d.files|, i requires 0 <= i < |d.files| => NodeBlock(d, i)) + d.data
  }

  ghost function Encode(d: Disk): (img: seq<byte>)
    requires DiskOk(d)
    ensures |img| == (1 + |d.files| + |d.data|) * 4096
  {
    ConcatSize(Blocks(d), 4096);
    Concat(Blocks(d))
  }

  // ----- Reading words back -----

  lemma WordIs(buf: seq<byte>, at: nat, n: nat)
    requires n < WORD && at + 4 <= |buf| && buf[at..at + 4] == LittleEndian(n)
    ensures Word(buf, at) == n
  {
    var b := LittleEndian(n);
    assert buf[at] == b[0] && buf[at + 1] == b[1] && buf[at + 2] == b[2] && buf[at + 3] == b[3];
    Digits(n);
  }

  lemma Digits(n: nat)
    requires n < WORD
    ensures n % 0x100 + 0x100 * (n / 0x100 % 0x100) + 0x1_0000 * (n / 0x1_0000 % 0x100)
          + 0x100_0000 * (n / 0x100_0000) == n
  {
  }

  /** n bytes of block k. */
  lemma InBlock(d: Disk, k: nat, i: nat, n: nat)
    requires DiskOk(d) && k < |Blocks(d)| && i + n <= 4096
    ensures k * 4096 + i + n <= |Encode(d)| && Encode(d)[k * 4096 + i..k * 4096 + i + n] == Blocks(d)[k][i..i + n]
  {
    PartOf(Blocks(d), 4096, k);
    SliceOfSlice(Encode(d), k * 4096, (k + 1) * 4096, i, n);
  }

  /** n bytes of row k of the boot block. */
  lemma InBoot(d: Disk, k: nat, i: nat, n: nat)
    requires DiskOk(d) && k <= |d.entries| && i + n <= 64
    ensures k * 64 + i + n <= 4096 && Encode(d)[k * 64 + i..k * 64 + i + n] == BootRows(d)[k][i..i + n]
  {
    ConcatSize(BootRows(d), 64);
    PieceOfPart(BootRows(d), 64, 4096, 0, k, i, n);
    InBlock(d, 0, k * 64 + i, n);
  }

  /** Word k of index node i. */
  lemma InNode(d: Disk, i: nat, k: nat)
    requires DiskOk(d) && i < |d.files| && k < |NodeWords(d, i)|
    ensures (i + 1) * 4096 + 4 * k + 4 <= |Encode(d)|
    ensures Encode(d)[(i + 1) * 4096 + 4 * k..(i + 1) * 4096 + 4 * k + 4] == NodeWords(d, i)[k]
  {
    var words := NodeWords(d, i);
    ConcatSize(words, 4);
    PieceOfPart(words, 4, 4096, 0, k, 0, 4);
    InBlock(d, i + 1, 4 * k, 4);
    assert Blocks(d)[i + 1] == NodeBlock(d, i);
  }

  // ----- The counts and the tables -----

  lemma Counts(d: Disk)
    requires DiskOk(d)
    ensures |Encode(d)| >= BLOCK_SIZE
    ensures NumDentries(Encode(d)) == |d.entries|
    ensures NumInodes(Encode(d)) == |d.files|
    ensures NumBlocks(Encode(d)) == |d.data|
  {
    var header := Header(|d.entries|, |d.files|, |d.data|);
    InBoot(d, 0, 0, 4);
    InBoot(d, 0, 4, 4);
    InBoot(d, 0, 8, 4);
    assert header[0..4] == LittleEndian(|d.entries|);
    assert header[4..8] == LittleEndian(|d.files|);
    assert header[8..12] == LittleEndian(|d.data|);
    WordIs(Encode(d), 0, |d.entries|);
    WordIs(Encode(d), 4, |d.files|);
    WordIs(Encode(d), 8, |d.data|);
  }

  lemma NodeLength(d: Disk, i: nat)
    requires DiskOk(d) && i < |d.files|
    ensures Complete(Encode(d)) && i < NumInodes(Encode(d)) && FileSize(Encode(d), i) == |d.files[i]|
  {
    Counts(d);
    InNode(d, i, 0);
    assert Stored(d, i);
    WordIs(Encode(d), (i + 1) * 4096, |d.files[i]|);
  }

  lemma NodePlace(d: Disk, i: nat, k: nat)
    requires DiskOk(d) && i < |d.files| && k < |d.places[i]|
    ensures Complete(Encode(d)) && (i + 1) * BLOCK_SIZE + 4 * (k + 2) <= |Encode(d)|
    ensures BlockNumber(Encode(d), i, k) == d.places[i][k]
  {
    Counts(d);
    InNode(d, i, k + 1);
    assert Stored(d, i);
    WordIs(Encode(d), (i + 1) * 4096 + 4 * (k + 1), d.places[i][k]);
  }

  lemma DataBlock(d: Disk, b: nat)
    requires DiskOk(d) && b < |d.data|
    ensures Complete(Encode(d)) && b < NumBlocks(Encode(d)) && Block(Encode(d), b) == d.data[b]
  {
    Counts(d);
    InBlock(d, |d.files| + 1 + b, 0, 4096);
    assert Blocks(d)[|d.files| + 1 + b] == d.data[b];
  }

  /** Every disk makes an image in good order. */
  lemma EncodedIsWellFormed(d: Disk)
    requires DiskOk(d)
    ensures WellFormed(Encode(d))
  {
    Counts(d);
    forall i | 0 <= i < NumInodes(Encode(d))
      ensures FileSize(Encode(d), i) <= 1023 * BLOCK_SIZE
    {
      NodeLength(d, i);
      assert Stored(d, i);
    }
    SmallFilesFit(Encode(d));
  }

  // ----- Reading the disk back -----

  lemma CutPadded(name: seq<byte>)
    requires |name| <= 32 && 0 !in name
    ensures Cut(Padded(name, 32, 0), 32) == name
  {
    var p := Padded(name, 32, 0);
    assert p[..|name|] == name;
    assert forall i :: 0 <= i < |name| ==> p[i] == name[i] && name[i] in name;
    assert |name| < 32 ==> p[|name|] == 0;
    assert forall i :: 0 <= i < |Cut(p, 32)| ==> p[i] != 0;
  }

  lemma RowFields(e: Dentry)
    requires EntryFits(e)
    ensures EntryBytes(e)[0..32] == Padded(e.fname, 32, 0)
    ensures EntryBytes(e)[32..36] == LittleEndian(e.ftype) && EntryBytes(e)[36..40] == LittleEndian(e.inode)
  {
  }

  lemma EncodedEntry(d: Disk, i: nat)
    requires DiskOk(d) && i < |d.entries|
    ensures WellFormed(Encode(d)) && i < NumDentries(Encode(d))
    ensures EntryAt(Encode(d), i) == d.entries[i].(fname := Padded(d.entries[i].fname, 32, 0))
    ensures EntryName(Encode(d), i) == d.entries[i].fname
  {
    var e, row := d.entries[i], BootRows(d)[i + 1];
    assert EntryFits(e) && row == EntryBytes(e);
    Counts(d);
    EncodedIsWellFormed(d);
    InBoot(d, i + 1, 0, 32);
    InBoot(d, i + 1, 32, 4);
    InBoot(d, i + 1, 36, 4);
    RowFields(e);
    WordIs(Encode(d), (i + 1) * 64 + 32, e.ftype);
    WordIs(Encode(d), (i + 1) * 64 + 36, e.inode);
    CutPadded(e.fname);
  }

  lemma EncodedBlocksExist(d: Disk, i: nat)
    requires DiskOk(d) && i < |d.files|
    ensures WellFormed(Encode(d)) && FileGood(Encode(d), i) && FileSize(Encode(d), i) == |d.files[i]|
  {
    EncodedIsWellFormed(d);
    NodeLength(d, i);
    Counts(d);
    assert Stored(d, i);
    forall k | 0 <= k < BlockCount(FileSize(Encode(d), i))
      ensures BlockNumber(Encode(d), i, k) < NumBlocks(Encode(d))
    {
      NodePlace(d, i, k);
    }
  }

  lemma ChunkAt(contents: seq<byte>, k: nat, r: nat)
    requires r < 4096 && k * 4096 + r < |contents|
    ensures k < BlocksFor(|contents|) && Chunk(contents, k)[r] == contents[k * 4096 + r]
  {
  }

  /** One byte of the blocks of an encoded file. */
  lemma EncodedByte(d: Disk, i: nat, k: nat, r: nat)
    requires DiskOk(d) && i < |d.files| && r < 4096 && k * 4096 + r < |d.files[i]|
    ensures WellFormed(Encode(d)) && FileGood(Encode(d), i) && FileSize(Encode(d), i) == |d.files[i]|
    ensures FirstBlocks(Encode(d), i, BlocksFor(|d.files[i]|))[k * 4096 + r] == d.files[i][k * 4096 + r]
  {
    EncodedBlocksExist(d, i);
    assert Stored(d, i);
    ChunkAt(d.files[i], k, r);
    FirstBlocksAt(Encode(d), i, BlocksFor(|d.files[i]|), k, r);
    NodePlace(d, i, k);
    DataBlock(d, d.places[i][k]);
  }

  /** The contents of a file are what was stored. */
  lemma EncodedFile(d: Disk, i: nat)
    requires DiskOk(d) && i < |d.files|
    ensures WellFormed(Encode(d)) && FileGood(Encode(d), i) && FileBytes(Encode(d), i) == d.files[i]
  {
    EncodedBlocksExist(d, i);
    forall p | 0 <= p < |d.files[i]|
      ensures FileBytes(Encode(d), i)[p] == d.files[i][p]
    {
      var k, r := p / 4096, p % 4096;
      assert p == k * 4096 + r;
      EncodedByte(d, i, k, r);
    }
  }

  /** The directory of an encoded disk is its list of entries: names, types, and the addresses of the index
      nodes. */
  lemma EncodedDirectory(d: Disk, base: nat)
    requires DiskOk(d) && base + |Encode(d)| <= WORD
    ensures WellFormed(Encode(d))
    ensures var v := VolumeOf(Encode(d), base);
      && |v.names| == |v.types| == |v.addresses| == |d.entries|
      && forall i :: 0 <= i < |d.entries| ==>
           && v.names[i] == d.entries[i].fname && v.types[i] == d.entries[i].ftype
           && (d.entries[i].inode < |d.files| ==> v.addresses[i] == base + (d.entries[i].inode + 1) * 4096)
  {
    EncodedIsWellFormed(d);
    Counts(d);
    forall i | 0 <= i < |d.entries|
      ensures EntryName(Encode(d), i) == d.entries[i].fname
      ensures EntryAt(Encode(d), i).ftype == d.entries[i].ftype && EntryAt(Encode(d), i).inode == d.entries[i].inode
      ensures d.entries[i].inode < |d.files| ==>
        InodeAddress(base, d.entries[i].inode) == base + (d.entries[i].inode + 1) * 4096
    {
      EncodedEntry(d, i);
      if d.entries[i].inode < |d.files| { ValidInodeRecovered(Encode(d), base, d.entries[i].inode); }
    }
  }

  /** A read through the address of an index node returns what was stored there from the position on, as much
      as was asked for or as there is. */
  lemma EncodedRead(d: Disk, base: nat, i: nat, pos: nat, nbytes: nat)
    requires DiskOk(d) && 0 < base && base + |Encode(d)| <= WORD && i < |d.files| && pos <= |d.files[i]|
    ensures WellFormed(Encode(d))
    ensures var n := if pos + nbytes <= |d.files[i]| then nbytes else |d.files[i]| - pos;
      VolumeOf(Encode(d), base).read(base + (i + 1) * 4096, pos, nbytes) == Outcome(n, d.files[i][pos..pos + n])
  {
    EncodedFile(d, i);
    Counts(d);
    ValidInodeRecovered(Encode(d), base, i);
    FileDelivers(Encode(d), base, i);
    ReadDelivers(VolumeOf(Encode(d), base), base + (i + 1) * 4096, d.files[i], pos, nbytes);
  }

  lemma ReadDelivers(v: Volume, address: nat, file: seq<byte>, pos: nat, nbytes: nat)
    requires Delivers(v, address, file) && pos <= |file|
    ensures var n := if pos + nbytes <= |file| then nbytes else |file| - pos;
      v.read(address, pos, nbytes) == Outcome(n, file[pos..pos + n])
  {
    assert DeliversAt(v, address, file, pos, nbytes);
  }

  /** Entry k is the first with this name. */
  ghost predicate FirstEntry(d: Disk, name: seq<byte>, k: nat) {
    && k < |d.entries| && d.entries[k].fname == name
    && forall j :: 0 <= j < k ==> d.entries[j].fname != name
  }

  /** What is written is read: open a stored file by its name, read it in pieces of any sizes with any other
      calls in between, and the pieces make up a prefix of what was stored under that name. */
  lemma StoredFileIsRead(d: Disk, base: nat, t: Table, name: seq<byte>,
                         ts: seq<Table>, os: seq<Outcome>, cs: seq<Call>, n: nat, fd: int, k: nat)
    requires DiskOk(d) && 0 < base && base + |Encode(d)| <= WORD && WellFormed(Encode(d)) && TableOk(t)
    requires FirstEntry(d, Cut(name, 32), k) && d.entries[k].ftype == 2 && d.entries[k].inode < |d.files|
    requires IsRun(VolumeOf(Encode(d), base), ts, os, cs) && n <= |cs|
    requires Step(VolumeOf(Encode(d), base), t, Open(name)) == (ts[0], Outcome(fd, [])) && fd != ERROR
    requires NeverCloses(cs, fd)
    ensures var file := d.files[d.entries[k].inode];
      Delivered(os, cs, fd, n) == file[..AtMost(Asked(cs, fd, n), |file|)]
  {
    var img := Encode(d);
    EncodedDirectory(d, base);
    Counts(d);
    EncodedEntry(d, k);
    EncodedFile(d, d.entries[k].inode);
    var f := FirstNamed(Names(img), Cut(name, FNAME_SIZE), 0);
    assert VolumeOf(img, base).names == Names(img);
    assert f == k;
    ReadsAreAPrefixOfTheFile(img, base, t, name, ts, os, cs, n, fd, k);
  }
}
