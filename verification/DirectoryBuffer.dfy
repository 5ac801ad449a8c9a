/** The listing buffer that opening a directory fills: which directories it has room for. */
module DirectoryBuffer {
  import opened FileSystem
  import opened Descriptors
  import opened Sequences

  // ----- What storing one entry reads and writes -----

  /** The length of the text at the front of the buffer: everything before its first zero byte. */
  function TextLength(buf: seq<byte>): nat {
    FirstWhere(buf, (b: byte) => b == 0)
  }

  /** Where the padding loop of directory entry i writes its j-th zero. */
  function PaddingIndex(i: nat, j: nat): nat {
    i * FNAME_SIZE + FNAME_SIZE + j
  }

  /** The padding loop of entry i starts at the length of the whole text in the buffer. */
  ghost predicate PaddingInside(buf: seq<byte>, i: nat) {
    forall j: nat :: TextLength(buf) <= j < (i + 1) * FNAME_SIZE ==> PaddingIndex(i, j) < DIR_BUF_SIZE
  }

  /** Storing entry i, which leaves its name in the buffer and then measures and pads the text, accesses no
      byte outside the buffer. */
  ghost predicate EntryInside(buf: seq<byte>, i: nat) {
    && (i + 1) * FNAME_SIZE <= DIR_BUF_SIZE
    && TextLength(buf) < DIR_BUF_SIZE
    && PaddingInside(buf, i)
  }

  // ----- The names -----

  ghost predicate AreNames(names: seq<seq<byte>>) {
    ShortNames(names) && forall i :: 0 <= i < |names| ==> 0 !in names[i]
  }

  /** Every name fills its 32 bytes. */
  ghost predicate AllFull(names: seq<seq<byte>>) {
    forall i :: 0 <= i < |names| ==> |names[i]| == FNAME_SIZE
  }

  /** The directories that the buffer has room for. */
  ghost predicate FitsBuffer(names: seq<seq<byte>>) {
    |names| <= 31 || (|names| <= 61 && AllFull(names))
  }

  lemma PaddedNameHasZero(name: seq<byte>)
    requires |name| <= FNAME_SIZE && 0 !in name
    ensures 0 in PaddedName(name) <==> |name| < FNAME_SIZE
  {
    if |name| < FNAME_SIZE { assert PaddedName(name)[|name|] == 0; }
  }

  lemma {:induction false} ListingHasZero(names: seq<seq<byte>>)
    requires AreNames(names)
    ensures 0 in Listing(names) <==> !AllFull(names)
  {
    if names != [] {
      var front, last := names[..|names| - 1], names[|names| - 1];
      ListingHasZero(front);
      PaddedNameHasZero(last);
      assert AllFull(names) <==> AllFull(front) && |last| == FNAME_SIZE;
    }
  }

  /** The text at the front of a buffer runs through all the names exactly when none is padded. */
  lemma TextOfNames(names: seq<seq<byte>>, buf: seq<byte>)
    requires AreNames(names) && Listing(names) <= buf
    ensures TextLength(buf) >= |names| * FNAME_SIZE <==> AllFull(names)
  {
    ListingHasZero(names);
    if !AllFull(names) {
      var z :| 0 <= z < |Listing(names)| && Listing(names)[z] == 0;
      assert buf[z] == 0;
    } else {
      forall k | 0 <= k < |Listing(names)|
        ensures buf[k] != 0
      {
        assert Listing(names)[k] in Listing(names);
      }
    }
  }

  // ----- A whole directory -----

  /** The memory from the buffer on, once the name of entry i is in place: the names so far, then maybe those
      of an earlier listing, and zeros up to the end of the buffer. */
  ghost predicate HoldsNames(names: seq<seq<byte>>, buf: seq<byte>, i: nat)
    requires ShortNames(names) && i < |names|
  {
    && |buf| >= DIR_BUF_SIZE
    && Listing(names[..i + 1]) <= buf
    && forall k :: |names| * FNAME_SIZE <= k < DIR_BUF_SIZE ==> buf[k] == 0
  }

  ghost predicate InsideBefore(bufs: seq<seq<byte>>, n: nat)
    requires n <= |bufs|
  {
    forall i :: 0 <= i < n ==> EntryInside(bufs[i], i)
  }

  /** The buffer after each name, as long as nothing outside it has been written. */
  ghost predicate Filled(names: seq<seq<byte>>, bufs: seq<seq<byte>>) {
    && AreNames(names) && |bufs| == |names|
    && forall i :: 0 <= i < |names| && InsideBefore(bufs, i) ==> HoldsNames(names, bufs[i], i)
  }

  /** The padding of entry i stays inside the buffer exactly for the first 31 entries, and for a later one
      as long as no name has needed padding. */
  lemma PaddingFits(names: seq<seq<byte>>, buf: seq<byte>, i: nat)
    requires AreNames(names) && i < |names| && HoldsNames(names, buf, i)
    ensures PaddingInside(buf, i) <==> i < 31 || AllFull(names[..i + 1])
  {
    TextOfNames(names[..i + 1], buf);
    if i >= 31 && !AllFull(names[..i + 1]) {
      assert PaddingIndex(i, (i + 1) * FNAME_SIZE - 1) >= DIR_BUF_SIZE;
    }
  }

  lemma EntryFits(names: seq<seq<byte>>, buf: seq<byte>, i: nat)
    requires AreNames(names) && FitsBuffer(names) && i < |names| && HoldsNames(names, buf, i)
    ensures EntryInside(buf, i)
  {
    PaddingFits(names, buf, i);
    assert buf[|names| * FNAME_SIZE] == 0;
    assert TextLength(buf) <= |names| * FNAME_SIZE;
  }

  lemma {:induction false} EntriesFit(names: seq<seq<byte>>, bufs: seq<seq<byte>>, n: nat)
    requires Filled(names, bufs) && FitsBuffer(names) && n <= |names|
    ensures InsideBefore(bufs, n)
  {
    if n > 0 {
      EntriesFit(names, bufs, n - 1);
      EntryFits(names, bufs[n - 1], n - 1);
    }
  }

  /** Opening a directory accesses nothing outside the buffer exactly when the directory has at most 31
      names, or at most 61 names all of which fill their 32 bytes. */
  lemma DirectoryFits(names: seq<seq<byte>>, bufs: seq<seq<byte>>)
    requires Filled(names, bufs)
    ensures InsideBefore(bufs, |names|) <==> FitsBuffer(names)
  {
    if FitsBuffer(names) {
      EntriesFit(names, bufs, |names|);
    } else if InsideBefore(bufs, |names|) {
      var last := |names| - 1;
      assert names[..last + 1] == names;
      PaddingFits(names, bufs[last], last);
      assert AllFull(names) && HoldsNames(names, bufs[61], 61);
      TextOfNames(names[..62], bufs[61]);
      assert false;
    }
  }

  function OneLetterNames(n: nat): seq<seq<byte>>
    requires n <= 100
  {
    seq(n, i requires 0 <= i < n => [65 + i])
  }

  /** A directory of 32 one-letter names: the padding of the last one is written up to 64 bytes beyond the
      end of the buffer. */
  lemma LargeDirectoryOverruns()
    ensures var names := OneLetterNames(32);
      var buf := Padded(Listing(names), DIR_BUF_SIZE, 0);
      && AreNames(names) && HoldsNames(names, buf, 31)
      && TextLength(buf) == 1 && PaddingIndex(31, 1023) == DIR_BUF_SIZE + 63
      && !EntryInside(buf, 31)
  {
    var names := OneLetterNames(32);
    var buf := Padded(Listing(names), DIR_BUF_SIZE, 0);
    assert names[..32] == names;
    PaddingFits(names, buf, 31);
    ListingAt(names, 0);
    assert buf[..FNAME_SIZE] == PaddedName([65]);
    assert buf[0] == 65 && buf[1] == 0;
    assert |names[0]| == 1;
  }
}
