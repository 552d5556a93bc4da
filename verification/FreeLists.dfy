/** fs/mkfs.c: the superblock and the two free lists threaded through a new file system. */
module FreeLists {
  import opened Machine

  const NONE: u32 := 0xFFFF_FFFF

  // superblock_t, packed
  const NUMBER_OF_BLOCKS: nat := 0
  const NUMBER_OF_INODES: nat := 4
  const INODE_START: nat := 6
  const DATA_START: nat := 10
  const FREE_INODE_LIST: nat := 14
  const FREE_DATA_LIST: nat := 18

  /** The little-endian words of the image. */
  function Read16(fs: seq<u8>, at: nat): u16
    requires at + 2 <= |fs|
  {
    fs[at] as int + 0x100 * fs[at + 1] as int
  }

  function Read32(fs: seq<u8>, at: nat): u32
    requires at + 4 <= |fs|
  {
    fs[at] as int + 0x100 * fs[at + 1] as int + 0x1_0000 * fs[at + 2] as int + 0x100_0000 * fs[at + 3] as int
  }

  /** Everything but the n bytes at `at` is as before. */
  ghost predicate OnlyChanged(before: seq<u8>, after: seq<u8>, at: nat, n: nat) {
    && |before| == |after|
    && forall b :: 0 <= b < |before| && !(at <= b < at + n) ==> after[b] == before[b]
  }

  method Write16(fs: array<u8>, at: nat, v: u16)
    requires at + 2 <= fs.Length
    modifies fs
    ensures Read16(fs[..], at) == v && OnlyChanged(old(fs[..]), fs[..], at, 2)
  {
    fs[at] := v % 0x100;
    fs[at + 1] := v / 0x100;
  }

  method Write32(fs: array<u8>, at: nat, v: u32)
    requires at + 4 <= fs.Length
    modifies fs
    ensures Read32(fs[..], at) == v && OnlyChanged(old(fs[..]), fs[..], at, 4)
  {
    var q1 := v / 0x100;
    var q2 := q1 / 0x100;
    fs[at] := v % 0x100;
    fs[at + 1] := q1 % 0x100;
    fs[at + 2] := q2 % 0x100;
    fs[at + 3] := q2 / 0x100;
  }

  /** Following next_node from `node` through the inode or the data nodes visits exactly the nodes of
      `path` and ends. */
  ghost predicate Chain(fs: seq<u8>, inodes: bool, node: u32, path: seq<nat>)
    decreases |path|
  {
    if path == [] then node == NONE
    else
      && node == path[0]
      && NodeAt(inodes, path[0]) + 4 <= |fs|
      && Chain(fs, inodes, Read32(fs, NodeAt(inodes, path[0])), path[1..])
  }

  function UpFrom(first: nat, n: nat): seq<nat> {
    seq(n, i => first + i)
  }

  /** Where free_inodes[k] and free_data[k] lie: nodes of 16 bytes from block 2 on, and whole blocks. */
  function InodeNode(k: nat): nat {
    2048 + 16 * k
  }

  /** Where inode k lies: inode_t takes 32 bytes. */
  function InodeAt(k: nat): nat {
    2048 + 32 * k
  }

  /** The free nodes are threaded at half the stride of the inodes: only node 0 starts where its inode
      does, and the last one ends in the middle of the four inode blocks. */
  lemma NodesAtHalfStride(k: nat)
    ensures InodeNode(k) == InodeAt(k) <==> k == 0
    ensures InodeNode(2 * k) == InodeAt(k)
    ensures InodeNode(127) + 16 == 2048 + (InodeAt(128) - InodeAt(0)) / 2
  {
  }

  function DataNode(k: nat): nat {
    1024 * k
  }

  function NodeAt(inodes: bool, k: nat): nat {
    if inodes then InodeNode(k) else DataNode(k)
  }

  /** Nodes first..end-1 each point one up. */
  ghost predicate PointUp(fs: seq<u8>, inodes: bool, first: nat, end: nat) {
    && (end > first ==> NodeAt(inodes, end - 1) + 4 <= |fs|)
    && forall k :: first <= k < end ==> Read32(fs, NodeAt(inodes, k)) == k + 1
  }

  /** Nodes that point up, the last one nowhere, form a chain. */
  lemma {:induction false} PointUpIsChain(fs: seq<u8>, inodes: bool, first: nat, last: nat)
    requires first <= last < NONE && PointUp(fs, inodes, first, last)
    requires NodeAt(inodes, last) + 4 <= |fs| && Read32(fs, NodeAt(inodes, last)) == NONE
    ensures Chain(fs, inodes, first, UpFrom(first, last + 1 - first))
    decreases last - first
  {
    var path := UpFrom(first, last + 1 - first);
    assert path[1..] == UpFrom(first + 1, last - first);
    if first < last {
      assert Read32(fs, NodeAt(inodes, first)) == first + 1;
      PointUpIsChain(fs, inodes, first + 1, last);
    } else {
      assert path[1..] == [];
    }
  }

  /** A chain up from `first` needs every node on the way to point up. */
  lemma {:induction false} ChainPointsUp(fs: seq<u8>, inodes: bool, first: nat, n: nat, k: nat)
    requires first <= NONE && Chain(fs, inodes, first, UpFrom(first, n)) && first <= k && k + 1 < first + n
    ensures NodeAt(inodes, k) + 4 <= |fs| && Read32(fs, NodeAt(inodes, k)) == k + 1
    decreases k - first
  {
    var path := UpFrom(first, n);
    assert path[1..] == UpFrom(first + 1, n - 1);
    assert path[1] == first + 1;
    if first < k {
      ChainPointsUp(fs, inodes, first + 1, n - 1, k);
    }
  }

  // --- The layout: 1024-byte blocks, the superblock in block 0, 128 inodes in blocks 2 to 5 ---

  ghost predicate Superblock(fs: seq<u8>, numBlocks: nat) {
    && 22 <= |fs|
    && Read32(fs, NUMBER_OF_BLOCKS) == numBlocks && Read16(fs, NUMBER_OF_INODES) == 128
    && Read32(fs, INODE_START) == 2 && Read32(fs, DATA_START) == 6
    && Read32(fs, FREE_INODE_LIST) == 1 && Read32(fs, FREE_DATA_LIST) == 6
  }

  /** Writing elsewhere leaves a word alone. */
  lemma WordKept(before: seq<u8>, after: seq<u8>, at: nat, n: nat, p: nat)
    requires OnlyChanged(before, after, at, n) && p + 4 <= |before| && (p + 4 <= at || at + n <= p)
    ensures Read32(after, p) == Read32(before, p) && Read16(after, p) == Read16(before, p)
  {
  }

  lemma SuperblockKept(before: seq<u8>, after: seq<u8>, at: nat, numBlocks: nat)
    requires Superblock(before, numBlocks) && OnlyChanged(before, after, at, 4) && at >= 22
    ensures Superblock(after, numBlocks)
  {
  }

  method WriteSuperblock(fs: array<u8>, numBlocks: u32)
    requires fs.Length >= 1024
    modifies fs
    ensures Superblock(fs[..], numBlocks)
  {
    Write32(fs, NUMBER_OF_BLOCKS, numBlocks);
    Write16(fs, NUMBER_OF_INODES, 128);
    Write32(fs, INODE_START, 2);
    Write32(fs, DATA_START, 6);
    Write32(fs, FREE_INODE_LIST, 1);
    Write32(fs, FREE_DATA_LIST, 6);
  }

  lemma PointUpStep(before: seq<u8>, after: seq<u8>, inodes: bool, first: nat, k: nat)
    requires first <= k && PointUp(before, inodes, first, k)
    requires NodeAt(inodes, k) + 4 <= |before| && OnlyChanged(before, after, NodeAt(inodes, k), 4)
    requires Read32(after, NodeAt(inodes, k)) == k + 1
    ensures PointUp(after, inodes, first, k + 1)
  {
    PointUpKept(before, after, inodes, first, k, NodeAt(inodes, k));
  }

  /** A write behind the nodes leaves them alone. */
  lemma PointUpKept(before: seq<u8>, after: seq<u8>, inodes: bool, first: nat, end: nat, at: nat)
    requires PointUp(before, inodes, first, end) && OnlyChanged(before, after, at, 4)
    requires end > first ==> NodeAt(inodes, end - 1) + 4 <= at
    ensures PointUp(after, inodes, first, end)
  {
    forall k | first <= k < end ensures Read32(after, NodeAt(inodes, k)) == k + 1 {
      assert Read32(before, NodeAt(inodes, k)) == k + 1;
      WordKept(before, after, at, 4, NodeAt(inodes, k));
    }
  }

  ghost predicate InodesLinked(fs: seq<u8>) {
    && PointUp(fs, true, 1, 127)
    && InodeNode(127) + 4 <= |fs| && Read32(fs, InodeNode(127)) == NONE
  }

  method LinkInodes(fs: array<u8>, ghost numBlocks: nat)
    requires fs.Length >= 4096 && Superblock(fs[..], numBlocks)
    modifies fs
    ensures Superblock(fs[..], numBlocks) && InodesLinked(fs[..])
  {
    var i := 1;
    while i < Read16(fs[..], NUMBER_OF_INODES) - 1
      invariant 1 <= i <= 127 && Superblock(fs[..], numBlocks) && PointUp(fs[..], true, 1, i)
      decreases 127 - i
    {
      ghost var before := fs[..];
      Write32(fs, 2048 + 16 * i, i + 1);
      SuperblockKept(before, fs[..], InodeNode(i), numBlocks);
      PointUpStep(before, fs[..], true, 1, i);
      i := i + 1;
    }
    ghost var before := fs[..];
    Write32(fs, 2048 + 16 * (Read16(fs[..], NUMBER_OF_INODES) - 1), NONE);
    SuperblockKept(before, fs[..], InodeNode(127), numBlocks);
    PointUpKept(before, fs[..], true, 1, 127, InodeNode(127));
  }

  method LinkData(fs: array<u8>, numBlocks: nat)
    requires 4 <= numBlocks <= 0x8000_0000 && fs.Length == 1024 * numBlocks
    requires Superblock(fs[..], numBlocks) && InodesLinked(fs[..])
    modifies fs
    ensures Superblock(fs[..], numBlocks)
    ensures numBlocks >= 5 ==> InodesLinked(fs[..])
    ensures PointUp(fs[..], false, 6, numBlocks - 1) && Read32(fs[..], DataNode(numBlocks - 1)) == NONE
  {
    var i := Read32(fs[..], DATA_START);
    while i < numBlocks - 1
      invariant 6 <= i && (i <= numBlocks - 1 || i == 6)
      invariant Superblock(fs[..], numBlocks) && InodesLinked(fs[..]) && PointUp(fs[..], false, 6, i)
      decreases numBlocks - i
    {
      ghost var before := fs[..];
      Write32(fs, 1024 * i, i + 1);
      SuperblockKept(before, fs[..], DataNode(i), numBlocks);
      InodesKept(before, fs[..], DataNode(i));
      PointUpStep(before, fs[..], false, 6, i);
      i := i + 1;
    }
    ghost var before := fs[..];
    Write32(fs, 1024 * (numBlocks - 1), NONE);
    SuperblockKept(before, fs[..], DataNode(numBlocks - 1), numBlocks);
    if numBlocks >= 5 {
      InodesKept(before, fs[..], DataNode(numBlocks - 1));
    }
    PointUpKept(before, fs[..], false, 6, numBlocks - 1, DataNode(numBlocks - 1));
  }

  lemma InodesKept(before: seq<u8>, after: seq<u8>, at: nat)
    requires InodesLinked(before) && OnlyChanged(before, after, at, 4) && at >= 4096
    ensures InodesLinked(after)
  {
    PointUpKept(before, after, true, 1, 127, at);
  }

  ghost predicate InodeListComplete(fs: seq<u8>) {
    22 <= |fs| && Chain(fs, true, Read32(fs, FREE_INODE_LIST), UpFrom(1, 127))
  }

  /** The free data list runs through every block from the first data block to the last block. */
  ghost predicate DataListComplete(fs: seq<u8>, numBlocks: nat) {
    && 22 <= |fs| && Read32(fs, DATA_START) < numBlocks
    && Chain(fs, false, Read32(fs, FREE_DATA_LIST), UpFrom(Read32(fs, DATA_START), numBlocks - Read32(fs, DATA_START)))
  }

  lemma InodeListExactly(fs: seq<u8>, numBlocks: nat)
    requires 4 <= numBlocks && 4096 <= |fs| && Superblock(fs, numBlocks)
    requires numBlocks >= 5 ==> InodesLinked(fs)
    requires numBlocks == 4 ==> Read32(fs, InodeNode(64)) == NONE
    ensures InodeListComplete(fs) <==> numBlocks >= 5
  {
    if numBlocks >= 5 {
      PointUpIsChain(fs, true, 1, 127);
    } else if InodeListComplete(fs) {
      // the end mark of the data list has cut the inode list at node 64
      ChainPointsUp(fs, true, 1, 127, 64);
    }
  }

  lemma DataListExactly(fs: seq<u8>, numBlocks: nat)
    requires 4 <= numBlocks <= 0x8000_0000 && |fs| == 1024 * numBlocks && Superblock(fs, numBlocks)
    requires PointUp(fs, false, 6, numBlocks - 1) && Read32(fs, DataNode(numBlocks - 1)) == NONE
    ensures DataListComplete(fs, numBlocks) <==> numBlocks >= 7
  {
    if numBlocks >= 7 {
      PointUpIsChain(fs, false, 6, numBlocks - 1);
    }
  }

  /** Both lists are complete exactly from 7 blocks on; with 5 or 6 there is no data block, and with
      4 the end mark of the data list lands inside the inode list.  The counter of the last loop is
      an int, hence at most 2^31 blocks; below 4 blocks the inode nodes lie outside the volume. */
  method MakeFileSystem(fs: array<u8>, numBlocks: nat)
    requires 4 <= numBlocks <= 0x8000_0000 && fs.Length == 1024 * numBlocks
    modifies fs
    ensures Superblock(fs[..], numBlocks)
    ensures InodeListComplete(fs[..]) <==> numBlocks >= 5
    ensures DataListComplete(fs[..], numBlocks) <==> numBlocks >= 7
  {
    WriteSuperblock(fs, numBlocks);
    LinkInodes(fs, numBlocks);
    LinkData(fs, numBlocks);
    InodeListExactly(fs[..], numBlocks);
    DataListExactly(fs[..], numBlocks);
  }

  // --- The image, byte by byte ---

  /** Words are little-endian. */
  lemma LittleEndian(fs: seq<u8>, at: nat)
    requires at + 4 <= |fs|
    ensures Read16(fs, at) == fs[at] as int + 0x100 * fs[at + 1] as int
    ensures Read32(fs, at) == Read16(fs, at) + 0x1_0000 * Read16(fs, at + 2)
  {
  }

  /** The fields of the superblock, packed: blocks, inodes, first inode and data block, list heads. */
  lemma SuperblockLayout(fs: seq<u8>, numBlocks: nat)
    requires 22 <= |fs|
    ensures Superblock(fs, numBlocks) <==>
      && Read32(fs, 0) == numBlocks && Read16(fs, 4) == 128 && Read32(fs, 6) == 2 && Read32(fs, 10) == 6
      && Read32(fs, 14) == 1 && Read32(fs, 18) == 6
  {
  }

  /** The last node of a list up from `first` names no node. */
  lemma {:induction false} ChainEnds(fs: seq<u8>, inodes: bool, first: nat, n: nat)
    requires n > 0 && first <= NONE && Chain(fs, inodes, first, UpFrom(first, n))
    ensures NodeAt(inodes, first + n - 1) + 4 <= |fs| && Read32(fs, NodeAt(inodes, first + n - 1)) == 0xFFFF_FFFF
    decreases n
  {
    var path := UpFrom(first, n);
    assert path[1..] == UpFrom(first + 1, n - 1);
    if n > 1 {
      assert path[1] == first + 1;
      ChainEnds(fs, inodes, first + 1, n - 1);
    }
  }

  /** The inode list in the image: 16 bytes from node to node behind block 2, each naming the next. */
  lemma InodeWords(fs: seq<u8>, numBlocks: nat, k: nat)
    requires Superblock(fs, numBlocks) && InodeListComplete(fs) && 1 <= k <= 127
    ensures 2048 + 16 * k + 4 <= |fs| && Read32(fs, 2048 + 16 * k) == if k < 127 then k + 1 else 0xFFFF_FFFF
  {
    if k < 127 {
      ChainPointsUp(fs, true, 1, 127, k);
    } else {
      ChainEnds(fs, true, 1, 127);
    }
  }

  /** The data list in the image: one word at the start of each block from 6 on, naming the next. */
  lemma DataWords(fs: seq<u8>, numBlocks: nat, k: nat)
    requires Superblock(fs, numBlocks) && DataListComplete(fs, numBlocks) && 6 <= k < numBlocks <= 0x8000_0000
    ensures 1024 * k + 4 <= |fs| && Read32(fs, 1024 * k) == if k < numBlocks - 1 then k + 1 else 0xFFFF_FFFF
  {
    if k < numBlocks - 1 {
      ChainPointsUp(fs, false, 6, numBlocks - 6, k);
    } else {
      ChainEnds(fs, false, 6, numBlocks - 6);
    }
  }
}
