/** The on-disk records of the file system, packed into 4096-byte blocks: the
    superblock, inode records (88 bytes, 46 to a block) and directory entries
    (36 bytes, 113 to a block). */
module FsLayout {
  import opened Bytes

  const BLOCK_SIZE := 4096
  const MAX_NAME := 28
  const INODE_SIZE := 88
  const INODES_PER_BLOCK := BLOCK_SIZE / INODE_SIZE
  const ENTRY_SIZE := 36
  const ENTRIES_PER_BLOCK := BLOCK_SIZE / ENTRY_SIZE
  const NDIRECT := 10
  const SLOTS := NDIRECT * ENTRIES_PER_BLOCK
  const SUPERBLOCK_SIZE := 44
  const MAGIC := 0xDEADBEEF

  type Block = s: seq<Byte> | |s| == BLOCK_SIZE witness Zeros(BLOCK_SIZE)
  type Direct = d: seq<u32> | |d| == NDIRECT witness [0, 0, 0, 0, 0, 0, 0, 0, 0, 0]

  // ---------------------------------------------------------------- inodes

  const TYPE_FILE: u16 := 0x8000
  const TYPE_DIR: u16 := 0x4000

  datatype Inode = Inode(
    id: u32, kind: u16, permissions: u16, owner: u32, group: u32,
    size: u64, created: u64, modified: u64,
    direct: Direct, indirect: u32, doubleIndirect: u32)

  /** `type & FS_INODE_TYPE_DIR` and `type & FS_INODE_TYPE_FILE`. */
  predicate IsDir(i: Inode) { i.kind / 0x4000 % 2 == 1 }
  predicate IsFile(i: Inode) { i.kind / 0x8000 % 2 == 1 }

  function StoreInode(i: Inode): (s: seq<Byte>)
    ensures |s| == INODE_SIZE
  {
    LittleEndian(i.id, 4) + LittleEndian(i.kind, 2) + LittleEndian(i.permissions, 2)
    + LittleEndian(i.owner, 4) + LittleEndian(i.group, 4) + LittleEndian(i.size, 8)
    + LittleEndian(i.created, 8) + LittleEndian(i.modified, 8) + StoreWords(i.direct)
    + LittleEndian(i.indirect, 4) + LittleEndian(i.doubleIndirect, 4)
  }

  function LoadInode(s: seq<Byte>): Inode
    requires |s| == INODE_SIZE
  {
    Inode(Load32(s[0..4]), Load16(s[4..6]), Load16(s[6..8]), Load32(s[8..12]), Load32(s[12..16]),
          Load64(s[16..24]), Load64(s[24..32]), Load64(s[32..40]),
          LoadWords(s[40..80], NDIRECT), Load32(s[80..84]), Load32(s[84..88]))
  }

  lemma InodeRoundTrip(i: Inode)
    ensures LoadInode(StoreInode(i)) == i
  {
    var s := StoreInode(i);
    WordLimits();
    assert s[0..4] == LittleEndian(i.id, 4);
    assert s[4..6] == LittleEndian(i.kind, 2);
    assert s[6..8] == LittleEndian(i.permissions, 2);
    assert s[8..12] == LittleEndian(i.owner, 4);
    assert s[12..16] == LittleEndian(i.group, 4);
    assert s[16..24] == LittleEndian(i.size, 8);
    assert s[24..32] == LittleEndian(i.created, 8);
    assert s[32..40] == LittleEndian(i.modified, 8);
    assert s[40..80] == StoreWords(i.direct);
    assert s[80..84] == LittleEndian(i.indirect, 4);
    assert s[84..88] == LittleEndian(i.doubleIndirect, 4);
    WordRoundTrip(i.id, 4);
    WordRoundTrip(i.kind, 2);
    WordRoundTrip(i.permissions, 2);
    WordRoundTrip(i.owner, 4);
    WordRoundTrip(i.group, 4);
    WordRoundTrip(i.size, 8);
    WordRoundTrip(i.created, 8);
    WordRoundTrip(i.modified, 8);
    WordsRoundTrip(i.direct);
    WordRoundTrip(i.indirect, 4);
    WordRoundTrip(i.doubleIndirect, 4);
  }

  /** Where each field of an inode record is, in bytes from its start. */
  lemma InodeBytes(i: Inode)
    ensures var s := StoreInode(i);
            && At32(s, 0) == i.id && At16(s, 4) == i.kind && At16(s, 6) == i.permissions
            && At32(s, 8) == i.owner && At32(s, 12) == i.group && At64(s, 16) == i.size
            && At64(s, 24) == i.created && At64(s, 32) == i.modified
            && (forall d: nat :: d < NDIRECT ==> At32(s, 40 + 4 * d) == i.direct[d])
            && At32(s, 80) == i.indirect && At32(s, 84) == i.doubleIndirect
  {
    hide At16, At32, At64, LittleEndian, StoreWords;
    var s := StoreInode(i);
    assert s[0..4] == LittleEndian(i.id, 4);
    Stored32(s, 0, i.id);
    assert s[4..6] == LittleEndian(i.kind, 2);
    Stored16(s, 4, i.kind);
    assert s[6..8] == LittleEndian(i.permissions, 2);
    Stored16(s, 6, i.permissions);
    assert s[8..12] == LittleEndian(i.owner, 4);
    Stored32(s, 8, i.owner);
    assert s[12..16] == LittleEndian(i.group, 4);
    Stored32(s, 12, i.group);
    assert s[16..24] == LittleEndian(i.size, 8);
    Stored64(s, 16, i.size);
    assert s[24..32] == LittleEndian(i.created, 8);
    Stored64(s, 24, i.created);
    assert s[32..40] == LittleEndian(i.modified, 8);
    Stored64(s, 32, i.modified);
    assert s[40..80] == StoreWords(i.direct);
    forall d: nat | d < NDIRECT ensures At32(s, 40 + 4 * d) == i.direct[d] {
      StoredWord(s, 40, i.direct, d);
    }
    assert s[80..84] == LittleEndian(i.indirect, 4);
    Stored32(s, 80, i.indirect);
    assert s[84..88] == LittleEndian(i.doubleIndirect, 4);
    Stored32(s, 84, i.doubleIndirect);
  }

  // ---------------------------------------------------------------- superblock

  datatype Superblock = Superblock(
    magic: u32, blockSize: u32, totalBlocks: u32, freeBlocks: u32, totalInodes: u32,
    freeInodes: u32, root: u32, inodeBitmapBlock: u32, blockBitmapBlock: u32,
    inodeTableStart: u32, dataStart: u32)

  function StoreSuperblock(sb: Superblock): (s: seq<Byte>)
    ensures |s| == SUPERBLOCK_SIZE
  {
    StoreWords([sb.magic, sb.blockSize, sb.totalBlocks, sb.freeBlocks, sb.totalInodes,
                sb.freeInodes, sb.root, sb.inodeBitmapBlock, sb.blockBitmapBlock,
                sb.inodeTableStart, sb.dataStart])
  }

  function LoadSuperblock(s: seq<Byte>): Superblock
    requires |s| == SUPERBLOCK_SIZE
  {
    var w := LoadWords(s, 11);
    Superblock(w[0], w[1], w[2], w[3], w[4], w[5], w[6], w[7], w[8], w[9], w[10])
  }

  lemma SuperblockRoundTrip(sb: Superblock)
    ensures LoadSuperblock(StoreSuperblock(sb)) == sb
  {
    WordsRoundTrip([sb.magic, sb.blockSize, sb.totalBlocks, sb.freeBlocks, sb.totalInodes,
                    sb.freeInodes, sb.root, sb.inodeBitmapBlock, sb.blockBitmapBlock,
                    sb.inodeTableStart, sb.dataStart]);
  }

  /** The eleven words of the superblock in the order of its fields. */
  lemma SuperblockBytes(sb: Superblock)
    ensures var s := StoreSuperblock(sb);
            && At32(s, 0) == sb.magic && At32(s, 4) == sb.blockSize && At32(s, 8) == sb.totalBlocks
            && At32(s, 12) == sb.freeBlocks && At32(s, 16) == sb.totalInodes && At32(s, 20) == sb.freeInodes
            && At32(s, 24) == sb.root && At32(s, 28) == sb.inodeBitmapBlock && At32(s, 32) == sb.blockBitmapBlock
            && At32(s, 36) == sb.inodeTableStart && At32(s, 40) == sb.dataStart
  {
    hide At32, StoreWords;
    var s := StoreSuperblock(sb);
    var ws := [sb.magic, sb.blockSize, sb.totalBlocks, sb.freeBlocks, sb.totalInodes,
               sb.freeInodes, sb.root, sb.inodeBitmapBlock, sb.blockBitmapBlock,
               sb.inodeTableStart, sb.dataStart];
    assert s[0..0 + 4 * |ws|] == StoreWords(ws);
    StoredWord(s, 0, ws, 0);
    StoredWord(s, 0, ws, 1);
    StoredWord(s, 0, ws, 2);
    StoredWord(s, 0, ws, 3);
    StoredWord(s, 0, ws, 4);
    StoredWord(s, 0, ws, 5);
    StoredWord(s, 0, ws, 6);
    StoredWord(s, 0, ws, 7);
    StoredWord(s, 0, ws, 8);
    StoredWord(s, 0, ws, 9);
    StoredWord(s, 0, ws, 10);
  }

  // ---------------------------------------------------------------- directory entries

  type RawName = s: seq<Byte> | |s| == MAX_NAME + 1 witness Zeros(MAX_NAME + 1)

  /** A slot of a directory; inode 0 marks it free. */
  datatype Entry = Entry(inode: u32, raw: RawName)

  const NO_ENTRY := Entry(0, Zeros(MAX_NAME + 1))

  function StoreEntry(e: Entry): (s: seq<Byte>)
    ensures |s| == ENTRY_SIZE
  {
    LittleEndian(e.inode, 4) + e.raw + Zeros(3)
  }

  function LoadEntry(s: seq<Byte>): Entry
    requires |s| == ENTRY_SIZE
  {
    Entry(Load32(s[0..4]), s[4..33])
  }

  lemma EntryRoundTrip(e: Entry)
    ensures LoadEntry(StoreEntry(e)) == e
  {
    WordLimits();
    assert StoreEntry(e)[0..4] == LittleEndian(e.inode, 4);
    assert StoreEntry(e)[4..33] == e.raw;
    WordRoundTrip(e.inode, 4);
  }

  /** An entry: the inode number, then the name field. */
  lemma EntryBytes(e: Entry)
    ensures At32(StoreEntry(e), 0) == e.inode
    ensures forall k: nat :: k < 29 ==> StoreEntry(e)[4 + k] == e.raw[k]
  {
    assert StoreEntry(e)[0..4] == LittleEndian(e.inode, 4);
    Stored32(StoreEntry(e), 0, e.inode);
  }

  lemma LoadZeroEntry()
    ensures LoadEntry(Zeros(ENTRY_SIZE)) == NO_ENTRY
  {
    assert Zeros(ENTRY_SIZE)[0..4] == Zeros(4);
    assert Zeros(ENTRY_SIZE)[4..33] == Zeros(29);
    ValueOfZeros(4);
  }

  /** What strncpy(raw, name, 28) followed by raw[28] = 0 leaves in the name field. */
  function RawOf(name: Text): RawName
    requires |name| <= MAX_NAME
  {
    name + Zeros(MAX_NAME + 1 - |name|)
  }

  lemma RawOfName(name: Text)
    requires |name| <= MAX_NAME
    ensures CString(RawOf(name)) == name
    ensures RawOf(name)[MAX_NAME] == 0
  {
    assert RawOf(name) == name + [0] + Zeros(MAX_NAME - |name|);
    CStringUnique(name, Zeros(MAX_NAME - |name|));
  }

  // ---------------------------------------------------------------- slots of a block

  function InodeIn(b: Block, slot: nat): Inode
    requires slot < INODES_PER_BLOCK
  {
    LoadInode(b[slot * 88..slot * 88 + 88])
  }

  function PutInodeIn(b: Block, slot: nat, i: Inode): Block
    requires slot < INODES_PER_BLOCK
  {
    Patch(b, slot * 88, StoreInode(i))
  }

  lemma InodeInPut(b: Block, slot: nat, i: Inode, other: nat)
    requires slot < INODES_PER_BLOCK && other < INODES_PER_BLOCK
    ensures InodeIn(PutInodeIn(b, slot, i), other) == if other == slot then i else InodeIn(b, other)
  {
    if other == slot {
      InodeRoundTrip(i);
    } else {
      PatchKeeps(b, slot * 88, StoreInode(i), other * 88, other * 88 + 88);
    }
  }

  function EntryIn(b: Block, slot: nat): Entry
    requires slot < ENTRIES_PER_BLOCK
  {
    LoadEntry(b[slot * 36..slot * 36 + 36])
  }

  function PutEntryIn(b: Block, slot: nat, e: Entry): Block
    requires slot < ENTRIES_PER_BLOCK
  {
    Patch(b, slot * 36, StoreEntry(e))
  }

  lemma EntryInPut(b: Block, slot: nat, e: Entry, other: nat)
    requires slot < ENTRIES_PER_BLOCK && other < ENTRIES_PER_BLOCK
    ensures EntryIn(PutEntryIn(b, slot, e), other) == if other == slot then e else EntryIn(b, other)
  {
    if other == slot {
      EntryRoundTrip(e);
    } else {
      PatchKeeps(b, slot * 36, StoreEntry(e), other * 36, other * 36 + 36);
    }
  }

  /** Record n of a table block starts at byte 88 * n, entry n of a directory block at byte
      36 * n. */
  lemma PlacedBytes(b: Block, n: nat, i: Inode, e: Entry)
    ensures n < 46 ==> PutInodeIn(b, n, i)[88 * n..88 * n + 88] == StoreInode(i)
    ensures n < 46 ==> InodeIn(b, n) == LoadInode(b[88 * n..88 * n + 88])
    ensures n < 113 ==> PutEntryIn(b, n, e)[36 * n..36 * n + 36] == StoreEntry(e)
    ensures n < 113 ==> EntryIn(b, n) == LoadEntry(b[36 * n..36 * n + 36])
  {
    hide StoreInode, StoreEntry, LoadInode, LoadEntry;
  }

  lemma EntryInZeros(slot: nat)
    requires slot < ENTRIES_PER_BLOCK
    ensures EntryIn(Zeros(BLOCK_SIZE), slot) == NO_ENTRY
  {
    assert Zeros(BLOCK_SIZE)[slot * 36..slot * 36 + 36] == Zeros(ENTRY_SIZE);
    LoadZeroEntry();
  }

  /** memset(entry, 0, 36) stores the free entry. */
  lemma StoreNoEntry()
    ensures StoreEntry(NO_ENTRY) == Zeros(ENTRY_SIZE)
  {
    assert LittleEndian(0, 4) == Zeros(4);
  }
}
