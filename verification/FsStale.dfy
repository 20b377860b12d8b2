/** What a new file inherits: fs_write takes a block with the bytes it holds, so the part
    of a block that a file has not written shows what the block's last owner left. */
module FsStale {
  import opened Bytes
  import opened FsLayout
  import opened FsTree
  import opened FsSpec
  import opened FsInv
  import opened FsNames
  import opened FsBytes
  import opened FsRun
  import opened FsRefine
  import opened FsCases

  /** A write within one block that the file does not have yet: the bytes of the block that
      the write does not cover are those the disk had there. */
  lemma StaleBytes(st: FsState, id: nat, x: u64, buf: seq<Byte>, o: nat)
    requires Inv(st) && LiveFile(st, id) && x < 40960 && 0 < |buf| && x % 4096 + |buf| <= 4096
    requires Held(st, id, x / 4096) == 0 && BlockFree(st)
    requires o / 4096 == x / 4096 && !(x <= o < x + |buf|)
    ensures Shape(st)
    ensures ByteAt(Write(st, id, x, buf, true).0, id, o) == Cell(BlockAt(st, FirstClear(st.used) + 1)[o % 4096])
  {
    hide Inv, WriteLoop, TreeOf;
    InvShape(st);
    WriteOnce(st, id, x, buf);
    var b := FirstClear(st.used) + 1;
    var st1 := WriteStep(st, id, x / 4096, x % 4096, buf);
    assert Held(st1, id, x / 4096) == b && BlockAt(st1, b) == Patch(BlockAt(st, b), x % 4096, buf);
  }

  // ---------------------------------------------------------------- blocks that stay

  /** The block that an entry is written to is the directory's own. */
  lemma FillSlotBlock(st: FsState, p: nat, k: nat, e: Entry, grow: int, c: nat)
    requires Shape(st) && Known(st, p) && k < SLOTS && c != Held(st, p, BlockOfSlot(k))
    ensures var st' := FillSlot(st, p, k, e, grow);
            st'.used == st.used && st'.live == st.live && BlockAt(st', c) == BlockAt(st, c)
  {
    hide PutEntryIn;
  }

  /** Delete writes to no block of another inode. */
  lemma DeleteKeepsBlock(st: FsState, p: nat, name: Text, id: nat, i: nat)
    requires Inv(st) && Live(st, p) && DeleteFinds(st, p, name, true)
    requires Live(st, id) && id != p && i < NDIRECT && Held(st, id, i) != 0
    ensures Shape(st) && BlockAt(Delete(st, p, name, true, true).0, Held(st, id, i)) == BlockAt(st, Held(st, id, i))
  {
    hide Directories, Records, Forest, TreeOf, DirSlots, EntryIn, FillSlot;
    var k := FirstMatch(DirSlots(st, p), name);
    DeleteTarget(st, p, name);
    assert Held(st, p, BlockOfSlot(k)) != Held(st, id, i);
    FillSlotBlock(st, p, k, NO_ENTRY, -ENTRY_SIZE, Held(st, id, i));
  }

  /** Delete leaves an empty entry in a block of the directory. */
  lemma DeleteLeavesSpare(st: FsState, p: nat, name: Text)
    requires Inv(st) && Live(st, p) && DeleteFinds(st, p, name, true)
    ensures Shape(st) && Known(Delete(st, p, name, true, true).0, p) && SpareSlot(Delete(st, p, name, true, true).0, p)
  {
    hide Ownership, Directories, Records, Forest, TreeOf, EntryIn, FillSlot, Reclaim, SlotsOf;
    var k := FirstMatch(DirSlots(st, p), name);
    DeleteTarget(st, p, name);
    var st1 := FillSlot(st, p, k, NO_ENTRY, -ENTRY_SIZE);
    assert LiveDir(st, p);
    FillSlotSlots(st, p, k, NO_ENTRY, -ENTRY_SIZE, p);
    FillSlotHolds(st, p, k, NO_ENTRY, -ENTRY_SIZE);
    var target := DirSlots(st, p)[k].inode;
    ReclaimFrame(st1, target);
    ReclaimHolds(st1, target, p);
    var st' := Delete(st, p, name, true, true).0;
    assert Held(st', p, BlockOfSlot(k)) != 0 && DirSlots(st', p)[k].inode == 0;
  }

  lemma FillSlotHolds(st: FsState, p: nat, k: nat, e: Entry, grow: int)
    requires Shape(st) && Known(st, p) && k < SLOTS
    ensures Ino(FillSlot(st, p, k, e, grow), p).direct == Ino(st, p).direct
    ensures FillSlot(st, p, k, e, grow).live == st.live
  {
    hide PutEntryIn;
  }

  lemma ReclaimHolds(st: FsState, id: nat, p: nat)
    requires Shape(st) && Known(st, id) && Known(st, p)
    ensures Known(Reclaim(st, id), p) && Ino(Reclaim(st, id), p) == Ino(st, p)
  {
  }

  /** A create in a directory with a spare entry takes no block and leaves every free block
      as it is. */
  lemma CreateKeepsBlock(st: FsState, p: nat, name: Text, kind: u16, c: nat)
    requires Inv(st) && LiveDir(st, p) && Shape(st) && Creates(st, p, name, true, true) && SpareSlot(st, p)
    requires DataBlock(st, c) && !st.used[c - 1]
    ensures var st' := Create(st, p, name, kind, true, true).0;
            st'.used == st.used && BlockAt(st', c) == BlockAt(st, c)
  {
    hide Records, Forest, TreeOf, DirSlots, AddInode, FillSlot, SpareSlot, Lookup;
    assert DirOk(st, p);
    SpareSlotFirst(st, p);
    AddInodeFrame(st, kind);
    RoomUnchanged(st, kind, p);
    AddInodeBlocks(st, kind);
    var st1, k := AddInode(st, kind), FreeSlot(st, p);
    assert Held(st1, p, BlockOfSlot(k)) == Held(st, p, BlockOfSlot(k)) != 0;
    assert Held(st, p, BlockOfSlot(k)) != c;
    FillSlotBlock(st1, p, k, Entry(FirstClear(st.live) + 1, RawOf(name)), ENTRY_SIZE, c);
  }

  lemma AddInodeBlocks(st: FsState, kind: u16)
    requires Shape(st) && InodeFree(st)
    ensures AddInode(st, kind).used == st.used && AddInode(st, kind).data == st.data
  {
  }

  // ---------------------------------------------------------------- the run

  lemma WrittenBlock(st: FsState, buf: seq<Byte>)
    requires Inv(st) && LiveFile(st, 2) && Ino(st, 2) == FreshInode(2, TYPE_FILE, 0x1A4) && BlockFree(st)
    requires 0 < |buf| <= 4095
    ensures var st', n := Write(st, 2, 0, buf, true).0, FirstClear(st.used);
            && Shape(st) && Known(st', 2) && st'.used == st.used[n := true]
            && Ino(st', 2).direct == [n + 1, 0, 0, 0, 0, 0, 0, 0, 0, 0]
            && forall o: nat :: o < |buf| ==> BlockAt(st', n + 1)[o] == buf[o]
  {
    hide Inv, WriteLoop, TreeOf, WriteStep, BlockAt, SetSize, FreshInode;
    InvShape(st);
    WriteOnce(st, 2, 0, buf);
    FirstBlock(st, buf);
    var st1 := WriteStep(st, 2, 0, 0, buf);
    SetSizeKeeps(st1, 2, |buf|, FirstClear(st.used) + 1);
  }

  lemma FirstBlock(st: FsState, buf: seq<Byte>)
    requires Shape(st) && Known(st, 2) && Ino(st, 2) == FreshInode(2, TYPE_FILE, 0x1A4) && BlockFree(st)
    requires 0 < |buf| <= 4095
    ensures var st', n := WriteStep(st, 2, 0, 0, buf), FirstClear(st.used);
            && Known(st', 2) && st'.used == st.used[n := true]
            && Ino(st', 2).direct == [n + 1, 0, 0, 0, 0, 0, 0, 0, 0, 0]
            && forall o: nat :: o < |buf| ==> BlockAt(st', n + 1)[o] == buf[o]
  {
    hide Attach, PutBlock, FreshInode, WriteStep, BlockAt, BlockFree, Patch;
    var b := FirstClear(st.used) + 1;
    FreshHasNoBlock(st);
    AttachFirst(st, BlockAt(st, b));
    var st1 := Attach(st, 2, 0, BlockAt(st, b));
    var blk := Patched(BlockAt(st1, b), buf);
    StepOnHole(st, buf);
    PutBlockAt(st1, b, blk);
  }

  /** A block with the bytes at its start replaced. */
  function Patched(blk: Block, buf: seq<Byte>): (r: Block)
    requires |buf| <= BLOCK_SIZE
    ensures forall o: nat :: o < |buf| ==> r[o] == buf[o]
  {
    Patch(blk, 0, buf)
  }

  lemma StepOnHole(st: FsState, buf: seq<Byte>)
    requires Shape(st) && Known(st, 2) && Held(st, 2, 0) == 0 && BlockFree(st) && |buf| <= BLOCK_SIZE
    ensures var b := FirstClear(st.used) + 1;
            var st1 := Attach(st, 2, 0, BlockAt(st, b));
            WriteStep(st, 2, 0, 0, buf) == PutBlock(st1, b, Patched(BlockAt(st1, b), buf))
  {
    hide BlockAt, PutBlock;
  }

  lemma FreshHasNoBlock(st: FsState)
    requires Known(st, 2) && Ino(st, 2) == FreshInode(2, TYPE_FILE, 0x1A4)
    ensures Ino(st, 2).direct == [0, 0, 0, 0, 0, 0, 0, 0, 0, 0]
  {
  }

  lemma AttachFirst(st: FsState, blk: Block)
    requires Shape(st) && Known(st, 2) && Ino(st, 2) == FreshInode(2, TYPE_FILE, 0x1A4) && BlockFree(st)
    ensures var st', n := Attach(st, 2, 0, blk), FirstClear(st.used);
            && Known(st', 2) && st'.used == st.used[n := true] && n + 1 < |st'.data|
            && Ino(st', 2).direct == [n + 1, 0, 0, 0, 0, 0, 0, 0, 0, 0]
  {
  }

  lemma PutBlockAt(st: FsState, b: nat, blk: Block)
    requires Shape(st) && b < |st.data|
    ensures var st' := PutBlock(st, b, blk);
            st'.used == st.used && st'.inodes == st.inodes && BlockAt(st', b) == blk
  {
  }

  lemma SetSizeKeeps(st: FsState, id: nat, size: u64, b: nat)
    requires Shape(st) && Known(st, id)
    ensures var st' := SetSize(st, id, size);
            && st'.used == st.used && BlockAt(st', b) == BlockAt(st, b)
            && Known(st', id) && Ino(st', id).direct == Ino(st, id).direct
  {
  }

  lemma SameTreeSameNames(st: FsState, st': FsState, p: nat, name: Text)
    requires Shape(st) && Shape(st') && TreeOf(st') == TreeOf(st) && NamesUnique(st) && LiveDir(st, p)
    ensures NamesUnique(st') && LiveDir(st', p) && Lookup(st', p, name, true) == Lookup(st, p, name, true)
  {
    hide TreeOf, UniqueTree, Lookup;
    WriteLookups(st, st', p, name);
  }

  lemma FoundIsDeleted(st: FsState, p: nat, name: Text)
    requires Lookup(st, p, name, true) != 0
    ensures DeleteFinds(st, p, name, true)
  {
  }

  /** The bits after the deletion are those before the write. */
  lemma UsedAgain(st: FsState, st1: FsState, name: Text, n: nat)
    requires Inv(st1) && MayName(st1, 1) && Known(st1, 2) && Lookup(st1, 1, name, true) == 2
    requires n == FirstClear(st.used) < |st.used| && st1.used == st.used[n := true]
    requires Ino(st1, 2).direct == [n + 1, 0, 0, 0, 0, 0, 0, 0, 0, 0]
    ensures Shape(st1) && Delete(st1, 1, name, true, true).0.used == st.used
  {
    hide Inv, Lookup, Delete;
    DeleteUsed(st1, 1, name, 2);
  }

  /** Write a file and delete it: its block is free again and still holds the bytes. */
  lemma WriteThenDelete(st: FsState, name: Text, other: Text, buf: seq<Byte>, n: nat)
    requires Inv(st) && NamesUnique(st) && LiveFile(st, 2) && Ino(st, 2) == FreshInode(2, TYPE_FILE, 0x1A4)
    requires LiveDir(st, 1) && BlockFree(st) && n == FirstClear(st.used) && Lookup(st, 1, name, true) == 2
    requires 0 < |buf| <= 4095 && (other == name || Lookup(st, 1, other, true) == 0)
    ensures Shape(st)
    ensures var st1 := Write(st, 2, 0, buf, true).0;
            var st2 := Delete(st1, 1, name, true, true).0;
            && Inv(st1) && MayName(st1, 1) && Inv(st2) && NamesUnique(st2) && LiveDir(st2, 1) && SpareSlot(st2, 1)
            && st2.used == st.used && |st2.inodes| == |st.inodes| && Lookup(st2, 1, other, true) == 0
            && (forall y: nat :: Live(st2, y) <==> Live(st, y) && y != 2)
            && forall o: nat :: o < |buf| ==> BlockAt(st2, n + 1)[o] == buf[o]
  {
    hide Inv, NamesUnique, TreeOf, Write, Delete, Lookup, ByteAt, OnlyFile, SpareSlot, DeleteFinds, BlockAt, FreshInode;
    InvShape(st);
    var st1 := Write(st, 2, 0, buf, true).0;
    WrittenBlock(st, buf);
    WriteInv(st, 2, 0, buf, true);
    InvShape(st1);
    StillLive(st, st1, 2);
    SameTreeSameNames(st, st1, 1, name);
    SameTreeSameNames(st, st1, 1, other);
    FoundIsDeleted(st1, 1, name);
    DeleteInv(st1, 1, name, true, true);
    var st2 := Delete(st1, 1, name, true, true).0;
    UsedAgain(st, st1, name, n);
    DeleteKeepsBlock(st1, 1, name, 2, 0);
    DeleteLeavesSpare(st1, 1, name);
    RootStays(st2);
    DeleteRemoves(st1, 1, name, true, true, st2.root, name);
    DeleteKeepsKinds(st1, 1, name, true, true);
    SameLive(st, st1, 2);
    DeleteRemoves(st1, 1, name, true, true, 1, other);
  }

  lemma SameLive(st: FsState, st': FsState, id: nat)
    requires OnlyFile(st, st', id)
    ensures |st'.inodes| == |st.inodes| && forall y: nat :: Live(st', y) <==> Live(st, y)
  {
    hide ByteAt;
  }

  /** Create a file again and write one byte at the end of its first block: the bytes before
      it are those that the block held. */
  lemma NextFile(st: FsState, name: Text, buf: seq<Byte>, last: Byte)
    requires Inv(st) && LiveDir(st, 1) && SpareSlot(st, 1) && Lookup(st, 1, name, true) == 0 && |name| <= MAX_NAME
    requires BlockFree(st) && 2 <= |st.inodes| && (forall y: nat :: Live(st, y) <==> y == 1) && |buf| <= 4095
    requires forall o: nat :: o < |buf| ==> BlockAt(st, FirstClear(st.used) + 1)[o] == buf[o]
    ensures Shape(st)
    ensures var st1 := Create(st, 1, name, TYPE_FILE, true, true).0;
            var st2 := Write(st1, 2, 4095, [last], true).0;
            Inv(st1) && MayName(st1, 2) && Read(st2, 2, 0, |buf|, true) == Bytes(buf)
  {
    hide Inv, TreeOf, Create, Write, Lookup, ByteAt, OnlyFile, SpareSlot, BlockAt, Read, Creates;
    InvShape(st);
    assert InodeFree(st) && FirstClear(st.live) == 1 by { SecondInode(st); }
    CreateAccepted(st, 1, name);
    CreateReturns(st, 1, name, TYPE_FILE, true, true);
    CreateInv(st, 1, name, TYPE_FILE, true, true);
    CreatedIsEmpty(st, 1, name, TYPE_FILE, true, true);
    CreateBitmaps(st, 1, name, TYPE_FILE, true, true);
    var st1, n := Create(st, 1, name, TYPE_FILE, true, true).0, FirstClear(st.used);
    InvSizes(st1);
    assert LiveFile(st1, 2);
    FreeBlockIsFree(st);
    CreateKeepsBlock(st, 1, name, TYPE_FILE, n + 1);
    WriteOnce(st1, 2, 4095, [last]);
    WriteInv(st1, 2, 4095, [last], true);
    WriteLands(st1, 2, 4095, [last]);
    var st2 := Write(st1, 2, 4095, [last], true).0;
    StillLive(st1, st2, 2);
    forall o: nat | o < |buf| ensures ByteAt(st2, 2, o) == Cell(buf[o]) {
      StaleBytes(st1, 2, 4095, [last], o);
    }
    ReadIs(st2, buf);
  }

  lemma SecondInode(st: FsState)
    requires Shape(st) && 2 <= |st.inodes| && forall y: nat :: Live(st, y) <==> y == 1
    ensures InodeFree(st) && FirstClear(st.live) == 1
  {
    assert Live(st, 1) && !Live(st, 2);
    FirstClearIs(st.live, 1);
  }

  lemma FreeBlockIsFree(st: FsState)
    requires Inv(st) && BlockFree(st)
    ensures DataBlock(st, FirstClear(st.used) + 1) && !st.used[FirstClear(st.used)]
  {
    hide Inv;
    InvOwns(st);
    FreeBlockIsUnheld(st);
  }

  lemma ReadIs(st: FsState, buf: seq<Byte>)
    requires LiveFile(st, 2) && |buf| <= Ino(st, 2).size && |buf| < REACH
    requires forall o: nat :: o < |buf| ==> ByteAt(st, 2, o) == Cell(buf[o])
    ensures Read(st, 2, 0, |buf|, true) == Bytes(buf)
  {
    hide Read, ByteAt;
    ReadDelivers(st, 2, 0, |buf|);
    var r := Read(st, 2, 0, |buf|, true).bytes;
    forall o: nat | o < |r| ensures r[o] == buf[o] {
      assert ByteAt(st, 2, 0 + o) == Cell(r[o]);
    }
  }

  /** The first file of a formatted disk, with what its name resolves to. */
  lemma FirstFileNamed(st: FsState, name: Text, other: Text)
    requires Formatted(st) && 3 <= |st.inodes| <= SLOTS && |st.used| >= st.reserved + 3 && |name| <= MAX_NAME
    ensures var st' := Create(st, 1, name, TYPE_FILE, true, true).0;
            && Inv(st') && NamesUnique(st') && LiveDir(st', 1) && |st'.inodes| == |st.inodes|
            && Lookup(st', 1, name, true) == 2 && (other == name || Lookup(st', 1, other, true) == 0)
            && forall y: nat :: Live(st', y) <==> y == 1 || y == 2
  {
    FormattedEmpty(st, name);
    FormattedEmpty(st, other);
    FormattedInv(st);
    FormattedBits(st);
    FormattedLive(st);
    hide Inv, NamesUnique, TreeOf, Create, HasRoom, Lookup, SpareSlot, DirSlots, Formatted, Creates;
    CreateAccepted(st, 1, name);
    CreateReturns(st, 1, name, TYPE_FILE, true, true);
    CreateInv(st, 1, name, TYPE_FILE, true, true);
    NotStarvedYet(st, name);
    CreateUniqueIff(st, 1, name, TYPE_FILE, true, true);
    CreateKeepsDir(st, 1, name, TYPE_FILE);
    RoomIff(st, 1);
    CreateInserts(st, 1, name, TYPE_FILE, true, true, 1, name);
    CreateInserts(st, 1, name, TYPE_FILE, true, true, 1, other);
    forall y: nat ensures Live(Create(st, 1, name, TYPE_FILE, true, true).0, y) <==> y == 1 || y == 2 {
      CreateLive(st, 1, name, TYPE_FILE, true, true, y);
    }
    CreateLeaves(st, 1, name, TYPE_FILE, true, true);
  }

  lemma NotStarvedYet(st: FsState, name: Text)
    requires Shape(st) && Lookup(st, 1, name, true) == 0
    ensures !Starved(st, 1, name, true, true)
  {
    hide Lookup, HasRoom, Creates;
  }

  lemma FormattedLive(st: FsState)
    requires Formatted(st)
    ensures Shape(st) && forall y: nat :: Live(st, y) <==> y == 1
  {
  }

  /** Write a file on a formatted disk, delete it, create another one and write a single
      byte at its offset 4095: reading the new file returns the bytes of the old one. */
  lemma InheritedBytes(st: FsState, name: Text, other: Text, buf: seq<Byte>, last: Byte)
    requires Formatted(st) && 3 <= |st.inodes| <= SLOTS && |st.used| >= st.reserved + 3
    requires |name| <= MAX_NAME && |other| <= MAX_NAME && 0 < |buf| <= 4095
    ensures var ops := [CreateOp(1, name, TYPE_FILE, true, true), WriteOp(2, 0, buf, true),
                        DeleteOp(1, name, true, true),
                        CreateOp(1, other, TYPE_FILE, true, true), WriteOp(2, 4095, [last], true)];
            SoundRun(st, ops) && LegalRun(st, ops) && Read(Run(st, ops), 2, 0, |buf|, true) == Bytes(buf)
  {
    hide Inv, NamesUnique, TreeOf, Create, Write, Delete, HasRoom, Lookup, SpareSlot, Formatted, Read,
         SoundRun, LegalRun, Run;
    var op0, op1, op2 := CreateOp(1, name, TYPE_FILE, true, true), WriteOp(2, 0, buf, true), DeleteOp(1, name,
        true, true);
    var op3, op4 := CreateOp(1, other, TYPE_FILE, true, true), WriteOp(2, 4095, [last], true);
    FormattedShape(st);
    FirstFile(st, name);
    FirstFileNamed(st, name, other);
    var st1 := Step(st, op0).0;
    InvShape(st1);
    WriteThenDelete(st1, name, other, buf, FirstClear(st1.used));
    var st2 := Step(st1, op1).0;
    InvShape(st2);
    var st3 := Step(st2, op2).0;
    InvShape(st3);
    NextFile(st3, other, buf, last);
    NotStarvedYet(st3, other);
    var st4 := Step(st3, op3).0;
    InvShape(st4);
    SoundOne(st4, op4);
    SoundCons(st3, op3, [op4]);
    SoundCons(st2, op2, [op3] + [op4]);
    SoundCons(st1, op1, [op2] + ([op3] + [op4]));
    SoundCons(st, op0, [op1] + ([op2] + ([op3] + [op4])));
    assert [op0] + ([op1] + ([op2] + ([op3] + [op4]))) == [op0, op1, op2, op3, op4];
  }
}
