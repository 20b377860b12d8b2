/** How the value-level state is read off the device blocks and the two in-memory
    bitmaps, and what each block write does to it. */
module FsView {
  import opened Bytes
  import opened FsLayout
  import opened FsSpec

  /** A superblock whose regions are disjoint and fit: superblock, inode bitmap, block
      bitmap and inode table in this order below the data, each bitmap one block. */
  predicate Geometry(sb: Superblock) {
    && 8 <= sb.totalInodes <= 8 * BLOCK_SIZE
    && 8 <= sb.totalBlocks <= 8 * BLOCK_SIZE
    && 0 < sb.inodeBitmapBlock < sb.blockBitmapBlock < sb.inodeTableStart
    && sb.inodeTableStart + (sb.totalInodes - 1) / 46 < sb.dataStart < sb.totalBlocks
    && 1 <= sb.root <= sb.totalInodes
  }

  /** Equal apart from the two free counters. */
  predicate SameLayout(a: Superblock, b: Superblock) {
    a.(freeBlocks := 0, freeInodes := 0) == b.(freeBlocks := 0, freeInodes := 0)
  }

  function TableBlock(sb: Superblock, id: nat): nat
    requires id >= 1
  {
    sb.inodeTableStart + (id - 1) / 46
  }

  function TableSlot(id: nat): (slot: nat)
    requires id >= 1
    ensures slot < INODES_PER_BLOCK
  {
    (id - 1) % 46
  }

  predicate Fits(sb: Superblock, disk: seq<Block>) {
    Geometry(sb) && |disk| > sb.totalBlocks
  }

  /** All inode ids lie inside the inode table, away from every other region. */
  lemma TableInside(sb: Superblock, id: nat)
    requires Geometry(sb) && 1 <= id <= sb.totalInodes
    ensures sb.blockBitmapBlock < TableBlock(sb, id) < sb.dataStart
  {
  }

  /** The layout that fs_init computes from the totals, written as the code writes it. */
  function LayoutFor(totalBlocks: u32, totalInodes: u32): Superblock {
    var inodeBitmapBlocks := (totalInodes / 8 + 4096 - 1) / 4096;
    var blockBitmapBlocks := (totalBlocks / 8 + 4096 - 1) / 4096;
    var inodeTableBlocks := (totalInodes * 88 + 4096 - 1) / 4096;
    var inodeBitmapBlock := 1;
    var blockBitmapBlock := inodeBitmapBlock + inodeBitmapBlocks;
    var inodeTableStart := blockBitmapBlock + blockBitmapBlocks;
    var dataStart := inodeTableStart + inodeTableBlocks;
    Superblock(MAGIC, BLOCK_SIZE, totalBlocks, (totalBlocks - dataStart) % U32_LIMIT, totalInodes, totalInodes, 0,
               inodeBitmapBlock, blockBitmapBlock, inodeTableStart, dataStart)
  }

  /** Packed records against bytes: the byte count of n records reaches the block of the
      last one exactly when the 48 bytes lost in every block before leave less than the
      88-byte records in it. */
  lemma LastBlockReached(n: nat)
    requires n >= 1
    ensures (n - 1) / 46 < (n * 88 + 4095) / 4096 <==> 48 * ((n - 1) / 46) < 88 * ((n - 1) % 46 + 1)
  {
    var q, r := (n - 1) / 46, (n - 1) % 46;
    assert n * 88 == 4096 * q + (88 * (r + 1) - 48 * q);
  }

  /** The code sizes the inode table by bytes but packs 46 whole records into a block, so
      the table it computes holds every inode only under this condition on their number. */
  lemma TableInsideIff(totalBlocks: u32, totalInodes: u32)
    requires totalInodes >= 1
    ensures var sb := LayoutFor(totalBlocks, totalInodes);
            (forall id: nat :: 1 <= id <= totalInodes ==> sb.inodeTableStart <= TableBlock(sb, id) < sb.dataStart)
            <==> 48 * ((totalInodes - 1) / 46) < 88 * ((totalInodes - 1) % 46 + 1)
  {
    hide LayoutFor;
    var sb := LayoutFor(totalBlocks, totalInodes);
    var blocks := (totalInodes * 88 + 4095) / 4096;
    assert sb.dataStart == sb.inodeTableStart + blocks by { LayoutTable(totalBlocks, totalInodes); }
    LastBlockReached(totalInodes);
    assert TableBlock(sb, totalInodes) == sb.inodeTableStart + (totalInodes - 1) / 46;
  }

  lemma LayoutTable(totalBlocks: u32, totalInodes: u32)
    ensures var sb := LayoutFor(totalBlocks, totalInodes);
            sb.dataStart == sb.inodeTableStart + (totalInodes * 88 + 4095) / 4096
  {
  }

  /** It does for the 128 inodes of fs_init; with 93 the last record would lie in the
      first data block. */
  lemma TableSizes()
    ensures var sb := LayoutFor(1024, 128);
            forall id: nat :: 1 <= id <= 128 ==> sb.inodeTableStart <= TableBlock(sb, id) < sb.dataStart
    ensures TableBlock(LayoutFor(1024, 93), 93) == LayoutFor(1024, 93).dataStart
  {
    TableInsideIff(1024, 128);
  }

  /** The record of an inode is 88 bytes of block table_start + (id - 1) / 46, at byte
      (id - 1) % 46 * 88; bit n of a bitmap is bit n % 8 of its byte n / 8. */
  lemma WhereThingsAre(sb: Superblock, disk: seq<Block>, ibm: Block, bbm: Block, id: nat, n: nat)
    requires Fits(sb, disk) && 1 <= id <= sb.totalInodes
    ensures var st, at := View(sb, disk, ibm, bbm), (id - 1) % 46 * 88;
            && sb.inodeTableStart + (id - 1) / 46 < |disk| && at + 88 <= 4096
            && Ino(st, id) == LoadInode(disk[sb.inodeTableStart + (id - 1) / 46][at..at + 88])
            && (n < |st.live| ==> (st.live[n] <==> BitOf(ibm[n / 8], n % 8)))
            && (n < |st.used| ==> (st.used[n] <==> BitOf(bbm[n / 8], n % 8)))
            && (DataBlock(st, n) ==> n < |disk| && BlockAt(st, n) == disk[n])
  {
    hide LoadInode;
    TableInside(sb, id);
  }

  function InodeOn(sb: Superblock, disk: seq<Block>, id: nat): Inode
    requires Fits(sb, disk) && 1 <= id <= sb.totalInodes
  {
    TableInside(sb, id);
    InodeIn(disk[TableBlock(sb, id)], TableSlot(id))
  }

  function InodesOn(sb: Superblock, disk: seq<Block>): (s: seq<Inode>)
    requires Fits(sb, disk)
    ensures |s| == sb.totalInodes
  {
    seq(sb.totalInodes, n requires 0 <= n < sb.totalInodes => InodeOn(sb, disk, n + 1))
  }

  /** The data blocks; the reserved prefix is masked out. */
  function DataOn(sb: Superblock, disk: seq<Block>): (s: seq<Block>)
    requires Fits(sb, disk)
    ensures |s| == sb.totalBlocks + 1
  {
    seq(sb.totalBlocks + 1, b requires 0 <= b <= sb.totalBlocks => Unmasked(sb, disk, b))
  }

  function Unmasked(sb: Superblock, disk: seq<Block>, b: nat): Block
    requires Fits(sb, disk) && b <= sb.totalBlocks
  {
    if b <= sb.dataStart + 1 then Zeros(BLOCK_SIZE) else disk[b]
  }

  function View(sb: Superblock, disk: seq<Block>, ibm: Block, bbm: Block): (st: FsState)
    requires Fits(sb, disk)
    ensures Shape(st) && |st.inodes| == sb.totalInodes && |st.used| == sb.totalBlocks
    ensures st.reserved == sb.dataStart && st.root == sb.root
  {
    FsState(sb.dataStart, sb.root, InodesOn(sb, disk), Bits(ibm, sb.totalInodes), Bits(bbm, sb.totalBlocks),
            DataOn(sb, disk))
  }

  // ---------------------------------------------------------------- block writes

  /** Reading a record back after writing one: the written record for its own id, the
      old record for every other id. */
  lemma InodeOnWrite(sb: Superblock, disk: seq<Block>, id: nat, i: Inode, other: nat)
    requires Fits(sb, disk) && 1 <= id <= sb.totalInodes && 1 <= other <= sb.totalInodes
    ensures TableBlock(sb, id) < |disk|
    ensures var b := TableBlock(sb, id);
            InodeOn(sb, disk[b := PutInodeIn(disk[b], TableSlot(id), i)], other)
            == if other == id then i else InodeOn(sb, disk, other)
  {
    hide InodeIn, PutInodeIn, TableBlock, TableSlot;
    TableInside(sb, id);
    TableInside(sb, other);
    TableSlots(id);
    TableSlots(other);
    SlotsDiffer(sb, id, other);
    InodeInPut(disk[TableBlock(sb, id)], TableSlot(id), i, TableSlot(other));
  }

  lemma TableSlots(id: nat)
    requires id >= 1
    ensures TableSlot(id) < INODES_PER_BLOCK
  {
  }

  lemma SlotsDiffer(sb: Superblock, id: nat, other: nat)
    requires id >= 1 && other >= 1
    ensures TableBlock(sb, id) == TableBlock(sb, other) && TableSlot(id) == TableSlot(other) ==> id == other
  {
    assert id - 1 == (id - 1) / 46 * 46 + TableSlot(id);
  }

  lemma ViewWriteInode(sb: Superblock, disk: seq<Block>, ibm: Block, bbm: Block, id: nat, i: Inode)
    requires Fits(sb, disk) && 1 <= id <= sb.totalInodes
    ensures TableBlock(sb, id) < |disk|
    ensures var b := TableBlock(sb, id);
            View(sb, disk[b := PutInodeIn(disk[b], TableSlot(id), i)], ibm, bbm)
            == SetInode(View(sb, disk, ibm, bbm), id, i)
  {
    hide InodeIn, PutInodeIn, InodeOn;
    TableInside(sb, id);
    var b := TableBlock(sb, id);
    var disk' := disk[b := PutInodeIn(disk[b], TableSlot(id), i)];
    forall n: nat | n < sb.totalInodes ensures InodesOn(sb, disk')[n] == InodesOn(sb, disk)[id - 1 := i][n] {
      InodeOnWrite(sb, disk, id, i, n + 1);
    }
    assert InodesOn(sb, disk') == InodesOn(sb, disk)[id - 1 := i];
    assert DataOn(sb, disk') == DataOn(sb, disk);
  }

  lemma SameTableBlocks(sb: Superblock, disk: seq<Block>, disk': seq<Block>)
    requires Fits(sb, disk) && |disk'| == |disk|
    requires forall b :: sb.inodeTableStart <= b < sb.dataStart ==> disk'[b] == disk[b]
    ensures InodesOn(sb, disk') == InodesOn(sb, disk)
  {
    hide InodeIn;
    forall n: nat | n < sb.totalInodes ensures InodesOn(sb, disk')[n] == InodesOn(sb, disk)[n] {
      TableInside(sb, n + 1);
    }
  }

  lemma ViewPutBlock(sb: Superblock, disk: seq<Block>, ibm: Block, bbm: Block, b: nat, blk: Block)
    requires Fits(sb, disk) && sb.dataStart + 2 <= b <= sb.totalBlocks
    ensures View(sb, disk[b := blk], ibm, bbm) == PutBlock(View(sb, disk, ibm, bbm), b, blk)
  {
    SameTableBlocks(sb, disk, disk[b := blk]);
    assert DataOn(sb, disk[b := blk]) == DataOn(sb, disk)[b := blk];
  }

  /** A write to the superblock or to a bitmap block leaves inodes and data alone. */
  lemma ViewReserved(sb: Superblock, disk: seq<Block>, b: nat, blk: Block)
    requires Fits(sb, disk) && b < sb.inodeTableStart
    ensures InodesOn(sb, disk[b := blk]) == InodesOn(sb, disk)
    ensures DataOn(sb, disk[b := blk]) == DataOn(sb, disk)
  {
    SameTableBlocks(sb, disk, disk[b := blk]);
    assert DataOn(sb, disk[b := blk]) == DataOn(sb, disk);
  }

  /** The view depends on the layout fields only. */
  lemma ViewLayout(sb: Superblock, sb': Superblock, disk: seq<Block>, ibm: Block, bbm: Block)
    requires Fits(sb, disk) && SameLayout(sb, sb')
    ensures Fits(sb', disk) && View(sb', disk, ibm, bbm) == View(sb, disk, ibm, bbm)
  {
    assert InodesOn(sb', disk) == InodesOn(sb, disk);
    assert DataOn(sb', disk) == DataOn(sb, disk);
  }

  lemma BlockAtView(sb: Superblock, disk: seq<Block>, ibm: Block, bbm: Block, b: nat)
    requires Fits(sb, disk) && sb.dataStart + 2 <= b <= sb.totalBlocks
    ensures BlockAt(View(sb, disk, ibm, bbm), b) == disk[b]
  {
  }

  // ---------------------------------------------------------------- bitmap changes on values

  function SetLive(st: FsState, id: nat, on: bool): (r: FsState)
    requires Shape(st) && Known(st, id)
    ensures Shape(r)
  {
    FsState(st.reserved, st.root, st.inodes, st.live[id - 1 := on], st.used, st.data)
  }

  function SetUsed(st: FsState, b: nat, on: bool): (r: FsState)
    requires Shape(st) && 1 <= b <= |st.used|
    ensures Shape(r)
  {
    FsState(st.reserved, st.root, st.inodes, st.live, st.used[b - 1 := on], st.data)
  }
}
