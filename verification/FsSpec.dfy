/** The file system on values: inode records, the two bitmaps as bit vectors and
    the data blocks. Every operation of the C code is a function on this state;
    FsDisk proves that the byte-level code computes these functions. */
module FsSpec {
  import opened Bytes
  import opened FsLayout
  import opened FsTree

  /** `reserved` is data_start_block; bit i of `live` stands for inode i + 1 and bit
      i of `used` for block i + 1, so the device has blocks 0..|used|. */
  datatype FsState = FsState(
    reserved: nat, root: nat,
    inodes: seq<Inode>, live: seq<bool>, used: seq<bool>, data: seq<Block>)

  predicate Shape(st: FsState) {
    && 1 <= |st.inodes| == |st.live| < U32_LIMIT
    && |st.data| == |st.used| + 1 <= U32_LIMIT
    && st.reserved < |st.used|
    && 1 <= st.root <= |st.inodes|
  }

  predicate Known(st: FsState, id: nat) { 1 <= id <= |st.inodes| }

  predicate Live(st: FsState, id: nat) { Known(st, id) && id <= |st.live| && st.live[id - 1] }

  function Ino(st: FsState, id: nat): Inode
    requires Known(st, id)
  {
    st.inodes[id - 1]
  }

  /** The i-th direct block of an inode. */
  function Held(st: FsState, id: nat, i: nat): u32
    requires Known(st, id) && i < NDIRECT
  {
    Ino(st, id).direct[i]
  }

  function BlockAt(st: FsState, b: nat): Block {
    if b < |st.data| then st.data[b] else Zeros(BLOCK_SIZE)
  }

  predicate LiveDir(st: FsState, id: nat) { Live(st, id) && IsDir(Ino(st, id)) }
  predicate LiveFile(st: FsState, id: nat) { Live(st, id) && IsFile(Ino(st, id)) }

  // ---------------------------------------------------------------- directories

  /** The block of a directory that slot k lies in, and the entry of that block;
      113 is ENTRIES_PER_BLOCK. */
  function BlockOfSlot(k: nat): (i: nat)
    requires k < SLOTS
    ensures i < NDIRECT
  {
    k / 113
  }

  function EntryOfSlot(k: nat): (j: nat)
    ensures j < ENTRIES_PER_BLOCK
  {
    k % 113
  }

  /** Slot k of a directory, block k / 113 and entry k % 113; a block that is not
      allocated counts as empty. */
  function SlotOf(st: FsState, d: Direct, k: nat): Entry
    requires k < SLOTS
  {
    if d[BlockOfSlot(k)] == 0 then NO_ENTRY
    else EntryIn(BlockAt(st, d[BlockOfSlot(k)]), EntryOfSlot(k))
  }

  function SlotsOf(st: FsState, d: Direct): Slots {
    seq(SLOTS, k requires 0 <= k < SLOTS => SlotOf(st, d, k))
  }

  function DirSlots(st: FsState, p: nat): Slots
    requires Known(st, p)
  {
    SlotsOf(st, Ino(st, p).direct)
  }

  function FreeSlot(st: FsState, p: nat): (k: nat)
    requires Known(st, p)
    ensures k <= SLOTS
  {
    FirstFree(DirSlots(st, p))
  }

  function TreeOf(st: FsState): Tree
    requires |st.live| == |st.inodes|
  {
    Tree(st.root,
         set id: nat | 1 <= id <= |st.inodes| && Live(st, id),
         map id: nat | 1 <= id <= |st.inodes| && LiveDir(st, id) :: DirSlots(st, id))
  }

  // ---------------------------------------------------------------- invariants

  predicate DataBlock(st: FsState, b: nat) { st.reserved + 2 <= b <= |st.used| }

  ghost predicate HeldBySome(st: FsState, b: nat) {
    exists id: nat, i: nat :: Live(st, id) && i < NDIRECT && Held(st, id, i) == b
  }

  /** The set bits of the block bitmap are the reserved prefix and one bit for each
      block that a live inode holds, and no block is held twice. */
  ghost predicate Ownership(st: FsState) {
    && (forall id: nat, i: nat :: Live(st, id) && i < NDIRECT && Held(st, id, i) != 0 ==>
          DataBlock(st, Held(st, id, i)) && st.used[Held(st, id, i) - 1])
    && (forall x: nat, i: nat, y: nat, j: nat ::
          Live(st, x) && i < NDIRECT && Live(st, y) && j < NDIRECT ==>
          Held(st, x, i) == Held(st, y, j) != 0 ==> x == y && i == j)
    && (forall b: nat {:trigger HeldBySome(st, b)} :: DataBlock(st, b) && st.used[b - 1] ==> HeldBySome(st, b))
    && (forall n: nat :: n <= st.reserved < |st.used| ==> st.used[n])
  }

  ghost predicate Records(st: FsState) {
    && (forall id: nat :: Live(st, id) ==>
          Ino(st, id).id == id && (Ino(st, id).kind == TYPE_FILE || Ino(st, id).kind == TYPE_DIR))
    && LiveDir(st, st.root)
  }

  /** A directory's size counts its entries, 36 bytes each, and its blocks fill up in order. */
  ghost predicate Directories(st: FsState) {
    forall p: nat {:trigger DirOk(st, p)} :: LiveDir(st, p) ==> DirOk(st, p)
  }

  ghost predicate DirOk(st: FsState, p: nat)
    requires Known(st, p)
  {
    Ino(st, p).size == 36 * Count(DirSlots(st, p)) && Packed(Ino(st, p).direct)
  }

  ghost predicate Packed(d: Direct) {
    forall i, j :: 0 <= i < j < NDIRECT && d[j] != 0 ==> d[i] != 0
  }

  ghost predicate Inv(st: FsState) {
    && Shape(st)
    && Ownership(st)
    && Records(st)
    && Directories(st)
    && Forest(TreeOf(st))
  }

  /** No two entries of a live directory have the same name. */
  ghost predicate NamesUnique(st: FsState)
    requires Shape(st)
  {
    UniqueTree(TreeOf(st))
  }

  // ---------------------------------------------------------------- elementary changes

  function FreshInode(id: u32, kind: u16, permissions: u16): Inode {
    Inode(id, kind, permissions, 0, 0, 0, 0, 0, [0, 0, 0, 0, 0, 0, 0, 0, 0, 0], 0, 0)
  }

  predicate InodeFree(st: FsState) { FirstClear(st.live) < |st.live| }
  predicate BlockFree(st: FsState) { FirstClear(st.used) < |st.used| }

  /** allocate_inode followed by writing a zeroed record. */
  function AddInode(st: FsState, kind: u16): (r: FsState)
    requires Shape(st) && InodeFree(st)
    ensures Shape(r) && |r.inodes| == |st.inodes|
  {
    var n := FirstClear(st.live);
    FsState(st.reserved, st.root, st.inodes[n := FreshInode(n + 1, kind, 0x1A4)],
            st.live[n := true], st.used, st.data)
  }

  /** An inode record without its size and its blocks: what no operation changes. */
  function Attributes(i: Inode): Inode {
    i.(size := 0, direct := [0, 0, 0, 0, 0, 0, 0, 0, 0, 0])
  }

  function SetInode(st: FsState, id: nat, i: Inode): (r: FsState)
    requires Shape(st) && Known(st, id)
    ensures Shape(r)
  {
    FsState(st.reserved, st.root, st.inodes[id - 1 := i], st.live, st.used, st.data)
  }

  function SetSize(st: FsState, id: nat, size: u64): (r: FsState)
    requires Shape(st) && Known(st, id)
    ensures Shape(r)
  {
    SetInode(st, id, Ino(st, id).(size := size))
  }

  function PutBlock(st: FsState, b: nat, blk: Block): (r: FsState)
    requires Shape(st)
    ensures Shape(r) && |r.inodes| == |st.inodes|
  {
    if b < |st.data| then FsState(st.reserved, st.root, st.inodes, st.live, st.used, st.data[b := blk]) else st
  }

  /** allocate_block, with the new block recorded as direct block i of an inode and
      holding the given contents. */
  function Attach(st: FsState, id: nat, i: nat, blk: Block): (r: FsState)
    requires Shape(st) && Known(st, id) && i < NDIRECT && BlockFree(st)
    ensures Shape(r) && |r.inodes| == |st.inodes|
  {
    var n := FirstClear(st.used);
    var ino := Ino(st, id);
    FsState(st.reserved, st.root, st.inodes[id - 1 := ino.(direct := ino.direct[i := n + 1])],
            st.live, st.used[n := true], st.data[n + 1 := blk])
  }

  /** Store an entry in slot k of directory p and add to its size, modulo 2^64. */
  function FillSlot(st: FsState, p: nat, k: nat, e: Entry, grow: int): (r: FsState)
    requires Shape(st) && Known(st, p) && k < SLOTS
    ensures Shape(r) && |r.inodes| == |st.inodes|
  {
    var b := Held(st, p, BlockOfSlot(k));
    var ino := Ino(st, p);
    SetInode(PutBlock(st, b, PutEntryIn(BlockAt(st, b), EntryOfSlot(k), e)),
             p, ino.(size := (ino.size + grow) % U64_LIMIT))
  }

  /** free_block for every direct block, then free_inode. */
  function Reclaim(st: FsState, id: nat): (r: FsState)
    requires Shape(st) && Known(st, id)
    ensures Shape(r)
  {
    FsState(st.reserved, st.root, st.inodes, st.live[id - 1 := false],
            seq(|st.used|, n requires 0 <= n < |st.used| => st.used[n] && n + 1 !in Ino(st, id).direct),
            st.data)
  }

  // ---------------------------------------------------------------- name operations

  /** `mem` says whether the transient copy of the directory's inode could be allocated. */
  function Lookup(st: FsState, p: nat, name: Text, mem: bool): nat {
    if |name| > MAX_NAME || !Known(st, p) || !mem || !IsDir(Ino(st, p)) then 0
    else Find(DirSlots(st, p), name)
  }

  predicate CreateRefused(st: FsState, p: nat, name: Text, mem: bool, lookupMem: bool)
    requires Shape(st)
  {
    || |name| > MAX_NAME || !Known(st, p) || !mem || !IsDir(Ino(st, p))
    || Lookup(st, p, name, lookupMem) != 0
    || !InodeFree(st)
  }

  /** The directory can take one more entry: a free slot, and a block to put it in. */
  predicate HasRoom(st: FsState, p: nat)
    requires Known(st, p)
  {
    FreeSlot(st, p) < SLOTS && (Held(st, p, BlockOfSlot(FreeSlot(st, p))) != 0 || BlockFree(st))
  }

  /** Put a new entry into the first free slot, taking a zeroed block for it when
      the slot's block is missing. */
  function Link(st: FsState, p: nat, e: Entry): (r: FsState)
    requires Shape(st) && Known(st, p) && HasRoom(st, p)
    ensures Shape(r)
  {
    var k := FreeSlot(st, p);
    var st1 := if Held(st, p, BlockOfSlot(k)) == 0 then Attach(st, p, BlockOfSlot(k), Zeros(BLOCK_SIZE)) else st;
    FillSlot(st1, p, k, e, ENTRY_SIZE)
  }

  function Create(st: FsState, p: nat, name: Text, kind: u16, mem: bool, lookupMem: bool): (r: (FsState, nat))
    requires Shape(st)
    ensures Shape(r.0)
  {
    if CreateRefused(st, p, name, mem, lookupMem) then (st, 0)
    else
      var id := FirstClear(st.live) + 1;
      var st1 := AddInode(st, kind);
      if HasRoom(st1, p) then (Link(st1, p, Entry(id, RawOf(name))), id) else (st1, id)
  }

  /** The directory can be searched for the name and holds it. */
  predicate DeleteFinds(st: FsState, p: nat, name: Text, mem: bool) {
    |name| <= MAX_NAME && Known(st, p) && mem && IsDir(Ino(st, p)) && FirstMatch(DirSlots(st, p), name) < SLOTS
  }

  function Delete(st: FsState, p: nat, name: Text, mem: bool, targetMem: bool): (r: (FsState, int))
    requires Shape(st)
    ensures Shape(r.0)
  {
    if !DeleteFinds(st, p, name, mem) then (st, -1)
    else
      var k := FirstMatch(DirSlots(st, p), name);
      var target := DirSlots(st, p)[k].inode;
      var st1 := FillSlot(st, p, k, NO_ENTRY, -ENTRY_SIZE);
      if !Known(st, target) || !targetMem then (st1, -1) else (Reclaim(st1, target), 0)
  }

  // ---------------------------------------------------------------- byte operations

  /** `(uint32_t)(offset / 4096)`, truncated as the code does. */
  function BlockIndex(offset: nat): nat { offset / 4096 % U32_LIMIT }

  function Chunk(offset: nat, left: nat): nat { Min(4096 - offset % 4096, left) }

  /** One turn of the write loop: take a block if the file has none there (its old
      contents stay), then patch it. */
  function WriteStep(st: FsState, id: nat, i: nat, pos: nat, bytes: seq<Byte>): (r: FsState)
    requires Shape(st) && Known(st, id) && i < NDIRECT && (Held(st, id, i) != 0 || BlockFree(st))
    requires pos + |bytes| <= BLOCK_SIZE
    ensures Shape(r) && |r.inodes| == |st.inodes|
  {
    var st1 := if Held(st, id, i) == 0 then Attach(st, id, i, BlockAt(st, FirstClear(st.used) + 1)) else st;
    var b := Held(st1, id, i);
    PutBlock(st1, b, Patch(BlockAt(st1, b), pos, bytes))
  }

  function WriteLoop(st: FsState, id: nat, offset: u64, buf: seq<Byte>, done: nat): (r: (FsState, nat))
    requires Shape(st) && Known(st, id) && done <= |buf| < U64_LIMIT
    ensures Shape(r.0) && |r.0.inodes| == |st.inodes| && done <= r.1 <= |buf|
    decreases |buf| - done
  {
    if done == |buf| then (st, done)
    else
      var at := (offset + done) % U64_LIMIT;
      var i := BlockIndex(at);
      if i >= NDIRECT || (Held(st, id, i) == 0 && !BlockFree(st)) then (st, done)
      else
        var n := Chunk(at, |buf| - done);
        WriteLoop(WriteStep(st, id, i, at % 4096, buf[done..done + n]), id, offset, buf, done + n)
  }

  function Write(st: FsState, id: nat, offset: u64, buf: seq<Byte>, mem: bool): (r: (FsState, int))
    requires Shape(st) && |buf| < U64_LIMIT
    ensures Shape(r.0) && |r.0.inodes| == |st.inodes|
  {
    if !Known(st, id) || !mem || !IsFile(Ino(st, id)) then (st, -1)
    else
      var (st1, n: int) := WriteLoop(st, id, offset, buf, 0);
      var finish := (offset + n) % U64_LIMIT;
      (if finish > Ino(st1, id).size then SetSize(st1, id, finish) else st1, n)
  }

  function ReadLoop(st: FsState, d: Direct, offset: u64, count: nat, done: nat): (r: seq<Byte>)
    requires done <= count
    ensures |r| <= count - done
    decreases count - done
  {
    if done == count then []
    else
      var at := (offset + done) % U64_LIMIT;
      var i := BlockIndex(at);
      if i >= NDIRECT || d[i] == 0 then []
      else
        var n := Chunk(at, count - done);
        BlockAt(st, d[i])[at % 4096..at % 4096 + n] + ReadLoop(st, d, offset, count, done + n)
  }

  /** The number of bytes asked for once the file size has been applied; the
      subtraction wraps when the offset lies beyond the end. */
  function Clamp(size: u64, offset: u64, count: u64): u64 {
    if (offset + count) % U64_LIMIT > size then (size - offset) % U64_LIMIT else count
  }

  /** None when the call returns -1, otherwise the bytes put into the caller's buffer. */
  datatype ReadResult = Refused | Bytes(bytes: seq<Byte>)

  function Read(st: FsState, id: nat, offset: u64, count: u64, mem: bool): ReadResult {
    if !Known(st, id) || !mem || !IsFile(Ino(st, id)) then Refused
    else Bytes(ReadLoop(st, Ino(st, id).direct, offset, Clamp(Ino(st, id).size, offset, count), 0))
  }

  // ---------------------------------------------------------------- format

  /** What the format branch of fs_init leaves behind: only the root exists. */
  predicate Formatted(st: FsState) {
    && Shape(st)
    && st.root == 1
    && st.inodes[0] == FreshInode(1, TYPE_DIR, 0x1ED)
    && (forall n :: 0 <= n < |st.live| ==> st.live[n] == (n == 0))
    && (forall n :: 0 <= n < |st.used| ==> st.used[n] == (n <= st.reserved))
  }
}
