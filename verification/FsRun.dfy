/** Whole runs of create, delete and write: in every reachable state the invariant holds,
    space is conserved, no directory is full and every inode that lives on keeps its
    attributes; and what create and delete leave alone. */
module FsRun {
  import opened Bytes
  import opened FsLayout
  import opened FsTree
  import opened FsSpec
  import opened FsInv
  import opened FsNames
  import opened FsBytes

  datatype Op =
    | CreateOp(p: u32, name: Text, kind: u16, mem: bool, lookupMem: bool)
    | DeleteOp(p: u32, name: Text, mem: bool, targetMem: bool)
    | WriteOp(id: u32, offset: u64, buf: seq<Byte>, mem: bool)

  /** What every caller owes: inodes that exist are live, new inodes are files or directories. */
  predicate Legal(st: FsState, op: Op) {
    match op
    case CreateOp(p, _, kind, _, _) => MayName(st, p) && IsKind(kind)
    case DeleteOp(p, _, _, _) => MayName(st, p)
    case WriteOp(id, _, buf, _) => MayName(st, id) && |buf| < U64_LIMIT
  }

  function Step(st: FsState, op: Op): (r: (FsState, int))
    requires Shape(st) && Legal(st, op)
    ensures Shape(r.0)
  {
    match op
    case CreateOp(p, name, kind, mem, lookupMem) =>
      (Create(st, p, name, kind, mem, lookupMem).0, Create(st, p, name, kind, mem, lookupMem).1 as int)
    case DeleteOp(p, name, mem, targetMem) => Delete(st, p, name, mem, targetMem)
    case WriteOp(id, offset, buf, mem) => Write(st, id, offset, buf, mem)
  }

  predicate LegalRun(st: FsState, ops: seq<Op>)
    requires Shape(st)
    decreases |ops|
  {
    ops == [] || (Legal(st, ops[0]) && LegalRun(Step(st, ops[0]).0, ops[1..]))
  }

  function Run(st: FsState, ops: seq<Op>): (r: FsState)
    requires Shape(st) && LegalRun(st, ops)
    ensures Shape(r)
    decreases |ops|
  {
    if ops == [] then st else Run(Step(st, ops[0]).0, ops[1..])
  }

  /** What the calls of a run return. */
  function Returns(st: FsState, ops: seq<Op>): seq<int>
    requires Shape(st) && LegalRun(st, ops)
    decreases |ops|
  {
    if ops == [] then [] else [Step(st, ops[0]).1] + Returns(Step(st, ops[0]).0, ops[1..])
  }

  lemma StepInv(st: FsState, op: Op)
    requires Inv(st) && Legal(st, op)
    ensures Inv(Step(st, op).0)
  {
    hide Inv, Create, Delete, Write;
    InvShape(st);
    match op
    case CreateOp(p, name, kind, mem, lookupMem) => CreateInv(st, p, name, kind, mem, lookupMem);
    case DeleteOp(p, name, mem, targetMem) => DeleteInv(st, p, name, mem, targetMem);
    case WriteOp(id, offset, buf, mem) => WriteInv(st, id, offset, buf, mem);
  }

  /** In every state reachable from a formatted disk the bitmaps and inode records
      agree, no block is held twice, and the name space is a forest. */
  lemma {:induction false} ReachableInv(st: FsState, ops: seq<Op>)
    requires Inv(st) && LegalRun(st, ops)
    ensures Inv(Run(st, ops))
    decreases |ops|
  {
    hide Inv, Step;
    InvShape(st);
    if ops != [] {
      StepInv(st, ops[0]);
      ReachableInv(Step(st, ops[0]).0, ops[1..]);
    }
  }

  lemma FormattedRunInv(st: FsState, ops: seq<Op>)
    requires Formatted(st) && LegalRun(st, ops)
    ensures Inv(Run(st, ops))
  {
    hide Inv, Run, LegalRun;
    FormattedInv(st);
    ReachableInv(st, ops);
  }

  /** Conservation over every run: the set bits are the reserved prefix and the blocks that
      live inodes hold, each held once. */
  lemma RunSpaceConserved(st: FsState, ops: seq<Op>)
    requires Inv(st) && LegalRun(st, ops)
    ensures |Taken(Run(st, ops))| == Run(st, ops).reserved + 1 + |Holdings(Run(st, ops))|
  {
    hide Inv, Run, LegalRun, Taken, Holdings;
    InvShape(st);
    ReachableInv(st, ops);
    InvOwns(Run(st, ops));
    SpaceConserved(Run(st, ops));
  }

  lemma StepSize(st: FsState, op: Op)
    requires Shape(st) && Legal(st, op)
    ensures |Step(st, op).0.inodes| == |st.inodes|
  {
    hide DirSlots, HasRoom, WriteLoop, BlockAt, CreateRefused, DeleteFinds;
  }

  /** On a disk with no more inodes than entry slots no directory is ever full. */
  lemma {:induction false} RunNeverFull(st: FsState, ops: seq<Op>, p: nat)
    requires Inv(st) && LegalRun(st, ops) && |st.inodes| <= SLOTS
    ensures LiveDir(Run(st, ops), p) ==> FreeSlot(Run(st, ops), p) < SLOTS
    decreases |ops|
  {
    hide Inv, Step, FreeSlot, DirSlots;
    InvShape(st);
    if ops == [] {
      if LiveDir(st, p) {
        NeverFull(st, p);
      }
    } else {
      StepInv(st, ops[0]);
      StepSize(st, ops[0]);
      RunNeverFull(Step(st, ops[0]).0, ops[1..], p);
    }
  }

  // ---------------------------------------------------------------- attributes

  /** Every inode that is live before and after keeps its attributes. */
  ghost predicate KeepsAttributes(st: FsState, st': FsState) {
    |st'.inodes| == |st.inodes| &&
    forall y: nat :: Live(st, y) && Live(st', y) ==> Attributes(Ino(st', y)) == Attributes(Ino(st, y))
  }

  lemma LinkAttributes(st: FsState, p: nat, e: Entry)
    requires Shape(st) && Known(st, p) && HasRoom(st, p)
    ensures KeepsAttributes(st, Link(st, p, e))
    ensures forall y: nat :: y != p && Known(st, y) ==> Ino(Link(st, p, e), y) == Ino(st, y)
  {
    hide DirSlots, PutEntryIn, BlockAt;
  }

  /** A created inode is empty and has the type asked for and permissions 0644; no other
      inode's attributes change. */
  lemma CreatedIsEmpty(st: FsState, p: nat, name: Text, kind: u16, mem: bool, lookupMem: bool)
    requires Shape(st) && MayName(st, p) && Creates(st, p, name, mem, lookupMem)
    ensures var (st', id) := Create(st, p, name, kind, mem, lookupMem);
            && Known(st', id) && Ino(st', id) == FreshInode(id, kind, 0x1A4)
            && var i := Ino(st', id);
            && i.id == id && i.kind == kind && i.permissions == 0x1A4 && i.owner == 0 && i.group == 0
            && i.size == 0 && i.created == 0 && i.modified == 0
            && i.direct == [0, 0, 0, 0, 0, 0, 0, 0, 0, 0] && i.indirect == 0 && i.doubleIndirect == 0
            && (forall o: nat :: ByteAt(st', id, o) == Hole)
            && KeepsAttributes(st, st')
  {
    hide DirSlots, HasRoom, Lookup, Link, AddInode;
    var st1, id := AddInode(st, kind), FirstClear(st.live) + 1;
    AddInodeFrame(st, kind);
    if HasRoom(st1, p) {
      LinkAttributes(st1, p, Entry(id, RawOf(name)));
    }
    var st' := Create(st, p, name, kind, mem, lookupMem).0;
    CreateLeaves(st, p, name, kind, mem, lookupMem);
    forall y: nat | Live(st, y) && Live(st', y) ensures Attributes(Ino(st', y)) == Attributes(Ino(st, y)) {
      assert Live(st1, y);
    }
    forall o: nat ensures ByteAt(st', id, o) == Hole {
      FreshHasNoBlocks(st', id, o, kind);
    }
  }

  lemma FreshHasNoBlocks(st: FsState, id: nat, o: nat, kind: u16)
    requires Known(st, id) && id < U32_LIMIT && Ino(st, id) == FreshInode(id, kind, 0x1A4)
    ensures ByteAt(st, id, o) == Hole
  {
  }

  lemma CreateLeaves(st: FsState, p: nat, name: Text, kind: u16, mem: bool, lookupMem: bool)
    requires Shape(st) && Creates(st, p, name, mem, lookupMem)
    ensures Create(st, p, name, kind, mem, lookupMem).0.live == AddInode(st, kind).live
    ensures |Create(st, p, name, kind, mem, lookupMem).0.inodes| == |st.inodes|
  {
    hide DirSlots, PutEntryIn, BlockAt, Lookup;
  }

  /** Delete changes no inode's attributes. */
  lemma DeleteAttributes(st: FsState, p: nat, name: Text, mem: bool, targetMem: bool)
    requires Shape(st)
    ensures KeepsAttributes(st, Delete(st, p, name, mem, targetMem).0)
  {
    hide DirSlots, EntryIn, PutEntryIn, BlockAt, FirstMatch;
  }

  lemma WriteAttributes(st: FsState, id: nat, offset: u64, buf: seq<Byte>, mem: bool)
    requires Inv(st) && MayName(st, id) && |buf| < U64_LIMIT
    ensures Shape(st) && KeepsAttributes(st, Write(st, id, offset, buf, mem).0)
  {
    hide Inv, Write, ByteAt, TreeOf;
    InvShape(st);
    WriteInv(st, id, offset, buf, mem);
    if !Known(st, id) {
      WriteUnknown(st, id, offset, buf, mem);
    }
  }

  lemma WriteUnknown(st: FsState, id: nat, offset: u64, buf: seq<Byte>, mem: bool)
    requires Shape(st) && !Known(st, id) && |buf| < U64_LIMIT
    ensures Write(st, id, offset, buf, mem).0 == st
  {
  }

  lemma StepAttributes(st: FsState, op: Op)
    requires Inv(st) && Legal(st, op)
    ensures Shape(st) && KeepsAttributes(st, Step(st, op).0)
  {
    hide Inv, Delete, Write, KeepsAttributes, HasRoom, Link, AddInode, Lookup;
    InvShape(st);
    match op
    case CreateOp(p, name, kind, mem, lookupMem) =>
      if Creates(st, p, name, mem, lookupMem) {
        CreatedIsEmpty(st, p, name, kind, mem, lookupMem);
      } else {
        SameAttributes(st);
      }
    case DeleteOp(p, name, mem, targetMem) => DeleteAttributes(st, p, name, mem, targetMem);
    case WriteOp(id, offset, buf, mem) => WriteAttributes(st, id, offset, buf, mem);
  }

  lemma SameAttributes(st: FsState)
    ensures KeepsAttributes(st, st)
  {
  }

  predicate LivesThrough(st: FsState, ops: seq<Op>, y: nat)
    requires Shape(st) && LegalRun(st, ops)
    decreases |ops|
  {
    Live(st, y) && (ops == [] || LivesThrough(Step(st, ops[0]).0, ops[1..], y))
  }

  /** Over every run an inode keeps its number, type, permissions and owner for as long as
      it lives, whatever is created, deleted or written meanwhile. */
  lemma {:induction false} RunAttributes(st: FsState, ops: seq<Op>, y: nat)
    requires Inv(st) && LegalRun(st, ops) && LivesThrough(st, ops, y)
    ensures Live(Run(st, ops), y)
    ensures var i, j := Ino(st, y), Ino(Run(st, ops), y);
            && j.id == i.id && j.kind == i.kind && j.permissions == i.permissions && j.owner == i.owner
            && j.group == i.group && j.created == i.created && j.modified == i.modified
            && j.indirect == i.indirect && j.doubleIndirect == i.doubleIndirect
    decreases |ops|
  {
    hide Inv, Step, Attributes;
    InvShape(st);
    if ops != [] {
      StepInv(st, ops[0]);
      StepAttributes(st, ops[0]);
      SameFields(Ino(st, y), Ino(Step(st, ops[0]).0, y));
      RunAttributes(Step(st, ops[0]).0, ops[1..], y);
    }
  }

  lemma SameFields(i: Inode, j: Inode)
    requires Attributes(i) == Attributes(j)
    ensures j.id == i.id && j.kind == i.kind && j.permissions == i.permissions && j.owner == i.owner
    ensures j.group == i.group && j.created == i.created && j.modified == i.modified
    ensures j.indirect == i.indirect && j.doubleIndirect == i.doubleIndirect
  {
    var a := Attributes(i);
    assert a.id == i.id && a.id == j.id && a.owner == i.owner && a.owner == j.owner;
  }

  /** The root of a formatted disk: an empty directory with permissions 0755. */
  lemma FormattedRoot(st: FsState)
    requires Formatted(st)
    ensures Live(st, 1) && st.root == 1
    ensures var i := Ino(st, 1);
            && i.id == 1 && i.kind == 0x4000 && i.permissions == 0x1ED && i.owner == 0 && i.group == 0
            && i.size == 0 && i.created == 0 && i.modified == 0
            && i.direct == [0, 0, 0, 0, 0, 0, 0, 0, 0, 0] && i.indirect == 0 && i.doubleIndirect == 0
    ensures forall y: nat :: Live(st, y) <==> y == 1
    ensures forall b: nat :: 1 <= b <= |st.used| ==> (IsTaken(st, b) <==> b <= st.reserved + 1)
  {
  }

  // ---------------------------------------------------------------- files not touched

  /** Every file that is live before and after keeps its record and its bytes. */
  ghost predicate KeepsFiles(st: FsState, st': FsState) {
    && |st'.inodes| == |st.inodes|
    && (forall y: nat :: LiveFile(st, y) && Live(st', y) ==> Ino(st', y) == Ino(st, y))
    && (forall y: nat, o: nat :: LiveFile(st, y) && Live(st', y) ==> ByteAt(st', y, o) == ByteAt(st, y, o))
  }

  lemma KeepsFilesTrans(s0: FsState, s1: FsState, s2: FsState)
    requires KeepsFiles(s0, s1) && KeepsFiles(s1, s2)
    requires forall y: nat :: LiveFile(s0, y) && Live(s2, y) ==> Live(s1, y)
    ensures KeepsFiles(s0, s2)
  {
    hide ByteAt;
    forall y: nat, o: nat | LiveFile(s0, y) && Live(s2, y) ensures ByteAt(s2, y, o) == ByteAt(s0, y, o) {
      assert Live(s1, y) && LiveFile(s1, y);
      assert ByteAt(s1, y, o) == ByteAt(s0, y, o);
    }
  }

  lemma AddInodeFiles(st: FsState, kind: u16)
    requires Shape(st) && InodeFree(st)
    ensures KeepsFiles(st, AddInode(st, kind))
  {
    hide DirSlots;
    AddInodeFrame(st, kind);
  }

  lemma OtherFileBytes(st: FsState, st': FsState, y: nat, b: nat)
    requires Known(st, y) && Known(st', y) && Ino(st', y) == Ino(st, y)
    requires forall j: nat :: j < NDIRECT ==> Held(st, y, j) != b
    requires |st'.data| == |st.data| && forall c: nat :: c < |st.data| && c != b ==> st'.data[c] == st.data[c]
    ensures forall o: nat :: ByteAt(st', y, o) == ByteAt(st, y, o)
  {
    forall o: nat ensures ByteAt(st', y, o) == ByteAt(st, y, o) {
      if o / 4096 < NDIRECT {
        assert Held(st, y, o / 4096) != b && Held(st', y, o / 4096) == Held(st, y, o / 4096);
      }
    }
  }

  lemma AttachFiles(st: FsState, p: nat, i: nat, blk: Block)
    requires Shape(st) && Ownership(st) && Live(st, p) && !IsFile(Ino(st, p))
    requires i < NDIRECT && Held(st, p, i) == 0 && BlockFree(st)
    ensures KeepsFiles(st, Attach(st, p, i, blk))
  {
    var b := FirstClear(st.used) + 1;
    FreeBlockIsUnheld(st);
    forall y: nat | LiveFile(st, y) ensures forall o: nat :: ByteAt(Attach(st, p, i, blk), y, o) == ByteAt(st, y, o) {
      hide ByteAt;
      assert forall j: nat :: j < NDIRECT ==> Held(st, y, j) != b;
      OtherFileBytes(st, Attach(st, p, i, blk), y, b);
    }
  }

  lemma FillSlotFiles(st: FsState, p: nat, k: nat, e: Entry, grow: int)
    requires Shape(st) && Ownership(st) && Live(st, p) && !IsFile(Ino(st, p))
    requires k < SLOTS && Held(st, p, BlockOfSlot(k)) != 0
    ensures KeepsFiles(st, FillSlot(st, p, k, e, grow))
  {
    var b := Held(st, p, BlockOfSlot(k));
    forall y: nat | LiveFile(st, y)
      ensures forall o: nat :: ByteAt(FillSlot(st, p, k, e, grow), y, o) == ByteAt(st, y, o)
    {
      hide ByteAt, PutEntryIn;
      assert forall j: nat :: j < NDIRECT ==> Held(st, y, j) != b;
      OtherFileBytes(st, FillSlot(st, p, k, e, grow), y, b);
    }
  }

  lemma ReclaimFiles(st: FsState, id: nat)
    requires Shape(st) && Live(st, id)
    ensures KeepsFiles(st, Reclaim(st, id))
  {
  }

  lemma LinkFiles(st: FsState, p: nat, e: Entry)
    requires Inv(st) && LiveDir(st, p) && HasRoom(st, p)
    ensures KeepsFiles(st, Link(st, p, e))
  {
    hide Directories, Forest, TreeOf, ByteAt, FillSlot, DirSlots, Ownership;
    var g := Grown(st, p);
    GrownInv(st, p);
    assert !IsFile(Ino(st, p)) && !IsFile(Ino(g, p));
    FillSlotFiles(g, p, FreeSlot(st, p), e, ENTRY_SIZE);
    if Held(st, p, BlockOfSlot(FreeSlot(st, p))) == 0 {
      AttachFiles(st, p, BlockOfSlot(FreeSlot(st, p)), Zeros(BLOCK_SIZE));
      KeepsFilesTrans(st, g, Link(st, p, e));
    }
  }

  /** Creating a name leaves every existing file as it is. */
  lemma CreateFiles(st: FsState, p: nat, name: Text, kind: u16, mem: bool, lookupMem: bool)
    requires Inv(st) && MayName(st, p) && IsKind(kind)
    ensures KeepsFiles(st, Create(st, p, name, kind, mem, lookupMem).0)
  {
    hide Ownership, Directories, Forest, TreeOf, ByteAt, Link, AddInode, HasRoom, DirSlots;
    if Creates(st, p, name, mem, lookupMem) {
      AddInodeInv(st, kind);
      AddInodeFiles(st, kind);
      AddInodeFrame(st, kind);
      RoomUnchanged(st, kind, p);
      if HasRoom(st, p) {
        var st1 := AddInode(st, kind);
        LinkFiles(st1, p, Entry(FirstClear(st.live) + 1, RawOf(name)));
        KeepsFilesTrans(st, st1, Link(st1, p, Entry(FirstClear(st.live) + 1, RawOf(name))));
      }
    }
  }

  /** Deleting a name leaves every file other than its target as it is. */
  lemma DeleteFiles(st: FsState, p: nat, name: Text, mem: bool, targetMem: bool)
    requires Inv(st) && MayName(st, p)
    ensures KeepsFiles(st, Delete(st, p, name, mem, targetMem).0)
  {
    hide Ownership, Directories, Forest, TreeOf, ByteAt, DirSlots, EntryIn, PutEntryIn;
    if DeleteFinds(st, p, name, mem) {
      var k := FirstMatch(DirSlots(st, p), name);
      var st1 := FillSlot(st, p, k, NO_ENTRY, -ENTRY_SIZE);
      DeleteTarget(st, p, name);
      assert !IsFile(Ino(st, p));
      FillSlotFiles(st, p, k, NO_ENTRY, -ENTRY_SIZE);
      if targetMem {
        ReclaimFiles(st1, DirSlots(st, p)[k].inode);
        KeepsFilesTrans(st, st1, Reclaim(st1, DirSlots(st, p)[k].inode));
      }
    }
  }
}
