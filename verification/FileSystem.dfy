/** The read-only file system image: a boot block with the directory, one block per index node, and
    data blocks. A file is the concatenation of the blocks its index node lists, cut to its length. */
module FileSystem {
  import opened Sequences

  type byte = x: int | 0 <= x < 256

  const BLOCK_SIZE := 4096
  const ENTRY_SIZE := 64
  const FNAME_SIZE := 32
  const WORD := 0x1_0000_0000

  // ----- Layout -----

  /** A little-endian 32-bit word. */
  function Word(img: seq<byte>, at: nat): (w: nat)
    requires at + 4 <= |img|
    ensures w < WORD
  {
    var b0: int, b1: int, b2: int, b3: int := img[at], img[at + 1], img[at + 2], img[at + 3];
    b0 + 0x100 * b1 + 0x1_0000 * b2 + 0x100_0000 * b3
  }

  function NumDentries(img: seq<byte>): nat
    requires |img| >= BLOCK_SIZE
  {
    Word(img, 0)
  }

  function NumInodes(img: seq<byte>): nat
    requires |img| >= BLOCK_SIZE
  {
    Word(img, 4)
  }

  function NumBlocks(img: seq<byte>): nat
    requires |img| >= BLOCK_SIZE
  {
    Word(img, 8)
  }

  /** The image holds all the blocks it announces. */
  ghost predicate Complete(img: seq<byte>) {
    && |img| >= BLOCK_SIZE
    && (1 + NumInodes(img) + NumBlocks(img)) * BLOCK_SIZE <= |img| <= WORD
    && (1 + NumDentries(img)) * ENTRY_SIZE <= BLOCK_SIZE
  }

  function FileSize(img: seq<byte>, inode: nat): nat
    requires Complete(img) && inode < NumInodes(img)
  {
    Word(img, (inode + 1) * BLOCK_SIZE)
  }

  /** How many blocks a file of this length occupies. */
  function BlockCount(size: nat): (count: nat)
    ensures size <= count * BLOCK_SIZE < size + BLOCK_SIZE
  {
    (size + BLOCK_SIZE - 1) / BLOCK_SIZE
  }

  /** A complete image in which the block numbers of every file lie inside the image. Those of a file with
      up to 1023 blocks do, since they fit its index node. */
  ghost predicate WellFormed(img: seq<byte>) {
    && Complete(img)
    && forall inode :: 0 <= inode < NumInodes(img) ==>
         (inode + 1) * BLOCK_SIZE + 4 * (BlockCount(FileSize(img, inode)) + 1) <= |img|
  }

  lemma SmallFilesFit(img: seq<byte>)
    requires Complete(img)
    requires forall inode :: 0 <= inode < NumInodes(img) ==> FileSize(img, inode) <= 1023 * BLOCK_SIZE
    ensures WellFormed(img)
  {
  }

  function BlockNumber(img: seq<byte>, inode: nat, k: nat): nat
    requires Complete(img) && (inode + 1) * BLOCK_SIZE + 4 * (k + 2) <= |img|
  {
    Word(img, (inode + 1) * BLOCK_SIZE + 4 * (k + 1))
  }

  // ----- Files -----

  /** The number of the block that holds position p of the file. */
  function NumberAt(img: seq<byte>, inode: nat, p: nat): nat
    requires WellFormed(img) && inode < NumInodes(img) && p < FileSize(img, inode)
  {
    InTable(img, inode, p);
    BlockNumber(img, inode, p / BLOCK_SIZE)
  }

  lemma InTable(img: seq<byte>, inode: nat, p: nat)
    requires WellFormed(img) && inode < NumInodes(img) && p < FileSize(img, inode)
    ensures (inode + 1) * BLOCK_SIZE + 4 * (p / BLOCK_SIZE + 2) <= |img|
  {
    assert p / BLOCK_SIZE < BlockCount(FileSize(img, inode));
  }

  /** That block exists. */
  ghost predicate GoodAt(img: seq<byte>, inode: nat, p: nat)
    requires WellFormed(img) && inode < NumInodes(img) && p < FileSize(img, inode)
  {
    NumberAt(img, inode, p) < NumBlocks(img)
  }

  /** One byte of a data block. */
  function BlockByte(img: seq<byte>, b: nat, r: nat): byte
    requires Complete(img) && b < NumBlocks(img) && r < BLOCK_SIZE
  {
    img[(NumInodes(img) + 1 + b) * BLOCK_SIZE + r]
  }

  /** The byte at position p of the file. */
  function ByteAt(img: seq<byte>, inode: nat, p: nat): byte
    requires WellFormed(img) && inode < NumInodes(img) && p < FileSize(img, inode) && GoodAt(img, inode, p)
  {
    BlockByte(img, NumberAt(img, inode, p), p % BLOCK_SIZE)
  }

  ghost predicate BlocksGood(img: seq<byte>, inode: nat, count: nat)
    requires WellFormed(img) && inode < NumInodes(img)
  {
    && count <= BlockCount(FileSize(img, inode))
    && forall k :: 0 <= k < count ==> BlockNumber(img, inode, k) < NumBlocks(img)
  }

  /** One data block. */
  ghost function Block(img: seq<byte>, b: nat): (bytes: seq<byte>)
    requires Complete(img) && b < NumBlocks(img)
    ensures |bytes| == BLOCK_SIZE
  {
    img[(NumInodes(img) + 1 + b) * BLOCK_SIZE..][..BLOCK_SIZE]
  }

  /** The first blocks of a file, one after the other. */
  ghost function FirstBlocks(img: seq<byte>, inode: nat, count: nat): (bytes: seq<byte>)
    requires WellFormed(img) && inode < NumInodes(img) && BlocksGood(img, inode, count)
    ensures |bytes| == count * BLOCK_SIZE
  {
    var blocks := seq(count, k requires 0 <= k < count => Block(img, BlockNumber(img, inode, k)));
    ConcatSize(blocks, BLOCK_SIZE);
    Concat(blocks)
  }

  ghost predicate FileGood(img: seq<byte>, inode: nat)
    requires WellFormed(img)
  {
    inode < NumInodes(img) && BlocksGood(img, inode, BlockCount(FileSize(img, inode)))
  }

  /** The contents of a file. */
  ghost function FileBytes(img: seq<byte>, inode: nat): (bytes: seq<byte>)
    requires WellFormed(img) && FileGood(img, inode)
    ensures |bytes| == FileSize(img, inode)
  {
    FirstBlocks(img, inode, BlockCount(FileSize(img, inode)))[..FileSize(img, inode)]
  }

  lemma FirstBlocksAt(img: seq<byte>, inode: nat, count: nat, k: nat, r: nat)
    requires WellFormed(img) && inode < NumInodes(img) && BlocksGood(img, inode, count)
    requires k < count && r < BLOCK_SIZE
    ensures FirstBlocks(img, inode, count)[k * BLOCK_SIZE + r] == Block(img, BlockNumber(img, inode, k))[r]
  {
    var blocks := seq(count, k requires 0 <= k < count => Block(img, BlockNumber(img, inode, k)));
    PartOf(blocks, BLOCK_SIZE, k);
    assert Concat(blocks)[k * BLOCK_SIZE..(k + 1) * BLOCK_SIZE][r] == blocks[k][r];
  }

  /** Looking a byte up through the index node finds the byte of the concatenated blocks. */
  lemma FileByte(img: seq<byte>, inode: nat, p: nat)
    requires WellFormed(img) && FileGood(img, inode) && p < FileSize(img, inode)
    ensures GoodAt(img, inode, p) && ByteAt(img, inode, p) == FileBytes(img, inode)[p]
  {
    var size := FileSize(img, inode);
    var k, r := p / BLOCK_SIZE, p % BLOCK_SIZE;
    assert p == k * BLOCK_SIZE + r;
    FirstBlocksAt(img, inode, BlockCount(size), k, r);
  }

  // ----- Reading -----

  /** How many bytes a read may return. */
  function ReadLength(size: nat, offset: nat, length: nat): nat {
    if offset >= size then 0 else if length < size - offset then length else size - offset
  }

  /** Every position of a range lies in a block that exists. */
  ghost predicate Readable(img: seq<byte>, inode: nat, from: nat, to: nat)
    requires WellFormed(img) && inode < NumInodes(img) && (from < to ==> to <= FileSize(img, inode))
  {
    forall p :: from <= p < to ==> GoodAt(img, inode, p)
  }

  /** What a read leaves at index i of its buffer: the file's bytes as far as they can be read, then zeros. */
  ghost function Seen(img: seq<byte>, inode: nat, offset: nat, i: nat): byte
    requires WellFormed(img) && inode < NumInodes(img)
  {
    if offset + i < FileSize(img, inode) && Readable(img, inode, offset, offset + i + 1)
    then ByteAt(img, inode, offset + i) else 0
  }

  /** Reading a file all of whose blocks exist gives a slice of its contents followed by zeros. */
  lemma ReadsSlice(img: seq<byte>, inode: nat, offset: nat, length: nat, buf: seq<byte>)
    requires WellFormed(img) && FileGood(img, inode) && |buf| >= length
    requires forall i :: 0 <= i < length ==> buf[i] == Seen(img, inode, offset, i)
    ensures var n := ReadLength(FileSize(img, inode), offset, length);
      && (offset < FileSize(img, inode) ==> Readable(img, inode, offset, offset + n))
      && buf[..n] == (if offset < FileSize(img, inode) then FileBytes(img, inode)[offset..offset + n] else [])
      && forall i :: n <= i < length ==> buf[i] == 0
  {
    var size := FileSize(img, inode);
    var n := ReadLength(size, offset, length);
    forall p | offset <= p < size
      ensures GoodAt(img, inode, p) && ByteAt(img, inode, p) == FileBytes(img, inode)[p]
    {
      FileByte(img, inode, p);
    }
    forall i | 0 <= i < n
      ensures buf[i] == FileBytes(img, inode)[offset + i]
    {
      assert buf[i] == Seen(img, inode, offset, i);
    }
    forall i | n <= i < length
      ensures buf[i] == 0
    {
      assert buf[i] == Seen(img, inode, offset, i);
    }
  }

  // ----- Names -----

  datatype Dentry = Dentry(fname: seq<byte>, ftype: nat, inode: nat)

  function EntryAt(img: seq<byte>, i: nat): (d: Dentry)
    requires Complete(img) && i < NumDentries(img)
    ensures |d.fname| == FNAME_SIZE && d.inode < WORD
  {
    var at := (i + 1) * ENTRY_SIZE;
    Dentry(img[at..at + FNAME_SIZE], Word(img, at + FNAME_SIZE), Word(img, at + FNAME_SIZE + 4))
  }

  /** A name: what comes before the first zero byte, at most n bytes of it. */
  function Cut(s: seq<byte>, n: nat): (name: seq<byte>)
    ensures |name| <= n && |name| <= |s| && name == s[..|name|]
    ensures forall i :: 0 <= i < |name| ==> name[i] != 0
    ensures |name| == n || |name| == |s| || s[|name|] == 0
  {
    if n == 0 || s == [] || s[0] == 0 then [] else [s[0]] + Cut(s[1..], n - 1)
  }

  /** A character string of the C kind: a zero byte ends it, or it is at least n bytes long. */
  predicate IsString(s: seq<byte>, n: nat) {
    |s| >= n || 0 in s
  }

  function EntryName(img: seq<byte>, i: nat): seq<byte>
    requires Complete(img) && i < NumDentries(img)
  {
    Cut(EntryAt(img, i).fname, FNAME_SIZE)
  }

  /** The names in the directory, in order. */
  ghost function Names(img: seq<byte>): (names: seq<seq<byte>>)
    requires Complete(img)
    ensures |names| == NumDentries(img)
  {
    seq(NumDentries(img), i requires 0 <= i < NumDentries(img) => EntryName(img, i))
  }

  /** The first place of a name in the list from i on, or the length of the list. */
  ghost function FirstNamed(names: seq<seq<byte>>, name: seq<byte>, i: nat): (k: nat)
    requires i <= |names|
    ensures i <= k <= |names|
    ensures k < |names| ==> names[k] == name
    ensures forall j :: i <= j < k ==> names[j] != name
    decreases |names| - i
  {
    if i == |names| || names[i] == name then i else FirstNamed(names, name, i + 1)
  }

  // ----- The index node behind a descriptor -----

  /** The address a descriptor stores for an index node. */
  function InodeAddress(base: nat, inode: nat): nat {
    (base + (inode + 1) * BLOCK_SIZE) % WORD
  }

  /** The index node a read recovers from the address. */
  function InodeOf(base: nat, address: nat): nat {
    ((address - base) % WORD / BLOCK_SIZE - 1) % WORD
  }

  const NODE_ADDRESSES := 0x10_0000

  /** How far the stored address lies above the image's, in 32-bit arithmetic. */
  lemma AddressOffset(base: nat, inode: nat)
    ensures (InodeAddress(base, inode) - base) % WORD == (inode + 1) % NODE_ADDRESSES * BLOCK_SIZE
  {
    var a := (inode + 1) * BLOCK_SIZE;
    var q := (base + a) / WORD;
    assert InodeAddress(base, inode) - base == a - q * WORD;
    var m, r := (inode + 1) / NODE_ADDRESSES, (inode + 1) % NODE_ADDRESSES;
    assert a - q * WORD == (m - q) * WORD + r * BLOCK_SIZE;
  }

  /** The index node number survives its trip through the address unless 32-bit arithmetic wraps
      it onto another node. */
  lemma InodeRecovered(base: nat, inode: nat)
    requires inode < WORD
    ensures InodeOf(base, InodeAddress(base, inode)) == inode <==> inode < NODE_ADDRESSES - 1 || inode == WORD - 1
  {
    AddressOffset(base, inode);
    var r := (inode + 1) % NODE_ADDRESSES;
    assert InodeOf(base, InodeAddress(base, inode)) == (r * BLOCK_SIZE / BLOCK_SIZE - 1) % WORD;
    assert r * BLOCK_SIZE / BLOCK_SIZE == r;
    assert (r - 1) % WORD == if r == 0 then WORD - 1 else r - 1;
  }

  /** In particular every index node of an image that fits in memory. */
  lemma ValidInodeRecovered(img: seq<byte>, base: nat, inode: nat)
    requires Complete(img) && base + |img| <= WORD && inode < NumInodes(img)
    ensures InodeAddress(base, inode) == base + (inode + 1) * BLOCK_SIZE
    ensures InodeOf(base, InodeAddress(base, inode)) == inode
  {
    InodeRecovered(base, inode);
  }
}
