/** Each elementary change keeps the file-system invariant, and what it does to the
    name space is exactly one change of the tree. */
module FsInv {
  import opened Bytes
  import opened FsLayout
  import opened FsTree
  import opened FsSpec

  // ---------------------------------------------------------------- trees and slots

  lemma SameSlots(st: FsState, st': FsState, d: Direct)
    requires forall i :: 0 <= i < NDIRECT && d[i] != 0 ==> BlockAt(st', d[i]) == BlockAt(st, d[i])
    ensures SlotsOf(st', d) == SlotsOf(st, d)
  {
    forall k: nat | k < SLOTS ensures SlotOf(st', d, k) == SlotOf(st, d, k) {
      assert d[BlockOfSlot(k)] != 0 ==> BlockAt(st', d[BlockOfSlot(k)]) == BlockAt(st, d[BlockOfSlot(k)]);
    }
  }

  /** Slots of a directory that keeps its blocks, none of which is b, while only block b changes. */
  lemma OtherBlock(st: FsState, st': FsState, p: nat, b: nat)
    requires Known(st, p) && Known(st', p) && Ino(st', p).direct == Ino(st, p).direct
    requires forall j: nat :: j < NDIRECT ==> Held(st, p, j) != b
    requires |st'.data| == |st.data| && forall c: nat :: c < |st.data| && c != b ==> st'.data[c] == st.data[c]
    ensures DirSlots(st', p) == DirSlots(st, p)
  {
    var d := Ino(st, p).direct;
    forall i: nat | i < NDIRECT && d[i] != 0 ensures BlockAt(st', d[i]) == BlockAt(st, d[i]) {
      assert d[i] == Held(st, p, i);
    }
    SameSlots(st, st', d);
  }

  lemma TreeIs(st: FsState, t: Tree)
    requires Shape(st) && t.root == st.root
    requires forall id: nat :: id in t.live <==> Live(st, id)
    requires forall id: nat :: id in t.dirs <==> LiveDir(st, id)
    requires forall id: nat :: LiveDir(st, id) ==> t.dirs[id] == DirSlots(st, id)
    ensures TreeOf(st) == t
  {
    assert TreeOf(st).live == t.live;
    assert TreeOf(st).dirs == t.dirs;
  }

  lemma TreeHas(st: FsState, id: nat)
    requires Shape(st)
    ensures TreeOf(st).root == st.root
    ensures id in TreeOf(st).live <==> Live(st, id)
    ensures id in TreeOf(st).dirs <==> LiveDir(st, id)
    ensures LiveDir(st, id) ==> TreeOf(st).dirs[id] == DirSlots(st, id)
  {
  }

  /** A change that keeps which inodes are live, their kinds and the slots of every
      live directory keeps the name space. */
  lemma SameTree(st: FsState, st': FsState)
    requires Shape(st) && Shape(st')
    requires st'.root == st.root && st'.live == st.live
    requires |st'.inodes| == |st.inodes|
    requires forall id: nat :: Live(st, id) ==> Ino(st', id).kind == Ino(st, id).kind
    requires forall id: nat :: LiveDir(st, id) ==> DirSlots(st', id) == DirSlots(st, id)
    ensures TreeOf(st') == TreeOf(st)
  {
    TreeIs(st', TreeOf(st));
  }

  // ---------------------------------------------------------------- a new inode

  lemma FreshSlots(st: FsState)
    ensures SlotsOf(st, [0, 0, 0, 0, 0, 0, 0, 0, 0, 0]) == FreeSlots(SLOTS)
  {
  }

  lemma AddInodeFrame(st: FsState, kind: u16)
    requires Shape(st) && InodeFree(st)
    ensures var st', n := AddInode(st, kind), FirstClear(st.live) + 1;
            && !Live(st, n) && Live(st', n) && Ino(st', n) == FreshInode(n, kind, 0x1A4)
            && (forall id: nat :: Known(st, id) && id != n ==> Ino(st', id) == Ino(st, id))
            && (forall id: nat :: id != n ==> Live(st', id) == Live(st, id))
            && (forall id: nat :: Known(st, id) && id != n ==> DirSlots(st', id) == DirSlots(st, id))
            && DirSlots(st', n) == FreeSlots(SLOTS)
  {
    var st', n := AddInode(st, kind), FirstClear(st.live) + 1;
    FreshSlots(st');
    forall id: nat | Known(st, id) && id != n ensures DirSlots(st', id) == DirSlots(st, id) {
      SameSlots(st, st', Ino(st, id).direct);
    }
  }

  lemma AddInodeTree(st: FsState, kind: u16)
    requires Shape(st) && InodeFree(st) && (kind == TYPE_FILE || kind == TYPE_DIR)
    ensures TreeOf(AddInode(st, kind)) == AddNode(TreeOf(st), FirstClear(st.live) + 1, kind == TYPE_DIR)
  {
    AddInodeFrame(st, kind);
    TreeIs(AddInode(st, kind), AddNode(TreeOf(st), FirstClear(st.live) + 1, kind == TYPE_DIR));
  }

  lemma AddInodeOwnership(st: FsState, kind: u16)
    requires Shape(st) && Ownership(st) && InodeFree(st)
    ensures Ownership(AddInode(st, kind))
  {
    var st', n := AddInode(st, kind), FirstClear(st.live) + 1;
    AddInodeFrame(st, kind);
    assert forall i: nat :: i < NDIRECT ==> Held(st', n, i) == 0;
    assert forall id: nat, i: nat :: Live(st', id) && i < NDIRECT && Held(st', id, i) != 0 ==>
      Live(st, id) && Held(st', id, i) == Held(st, id, i);
    forall b: nat | DataBlock(st', b) && st'.used[b - 1] ensures HeldBySome(st', b) {
      assert HeldBySome(st, b);
      var id: nat, i: nat :| Live(st, id) && i < NDIRECT && Held(st, id, i) == b;
      assert Live(st', id) && Held(st', id, i) == b;
    }
  }

  lemma AddInodeDirectories(st: FsState, kind: u16)
    requires Shape(st) && Directories(st) && InodeFree(st)
    ensures Directories(AddInode(st, kind))
  {
    var st', n := AddInode(st, kind), FirstClear(st.live) + 1;
    AddInodeFrame(st, kind);
    CountFree(SLOTS);
    forall p: nat | LiveDir(st', p) ensures DirOk(st', p) {
      if p != n {
        assert LiveDir(st, p) && DirOk(st, p);
      }
    }
  }

  lemma AddInodeRecords(st: FsState, kind: u16)
    requires Shape(st) && Records(st) && InodeFree(st) && (kind == TYPE_FILE || kind == TYPE_DIR)
    ensures Records(AddInode(st, kind))
  {
    hide DirSlots;
    AddInodeFrame(st, kind);
  }

  lemma AddInodeInv(st: FsState, kind: u16)
    requires Inv(st) && InodeFree(st) && (kind == TYPE_FILE || kind == TYPE_DIR)
    ensures Inv(AddInode(st, kind))
    ensures NamesUnique(st) ==> NamesUnique(AddInode(st, kind))
  {
    hide Ownership, Directories, Records, Forest, UniqueTree, TreeOf, AddNode, AddInode;
    TreeHas(st, FirstClear(st.live) + 1);
    AddInodeTree(st, kind);
    AddInodeOwnership(st, kind);
    AddInodeDirectories(st, kind);
    AddInodeRecords(st, kind);
    AddNodeForest(TreeOf(st), FirstClear(st.live) + 1, kind == TYPE_DIR);
  }

  // ---------------------------------------------------------------- a new block

  /** A free block is a data block and nobody holds it. */
  lemma FreeBlockIsUnheld(st: FsState)
    requires Shape(st) && Ownership(st) && BlockFree(st)
    ensures DataBlock(st, FirstClear(st.used) + 1)
    ensures !HeldBySome(st, FirstClear(st.used) + 1)
  {
  }

  lemma LiveIsKnown(st: FsState)
    ensures forall x: nat :: Live(st, x) ==> Known(st, x)
  {
  }

  /** The numbers of the blocks whose bit is set. */
  function Taken(st: FsState): set<nat> { set b: nat | 1 <= b <= |st.used| && IsTaken(st, b) }

  predicate IsTaken(st: FsState, b: nat) { 1 <= b <= |st.used| && st.used[b - 1] }

  /** The places in inode records where a live inode holds a block. */
  function Holdings(st: FsState): set<(nat, nat)> {
    set id: nat, i: nat | 1 <= id <= |st.inodes| && i < NDIRECT && Live(st, id) && Held(st, id, i) != 0 :: (id, i)
  }

  function Blocks(st: FsState, hs: set<(nat, nat)>): set<nat>
    requires hs <= Holdings(st)
  {
    set h | h in hs :: Held(st, h.0, h.1) as nat
  }

  lemma {:induction false} BlocksDistinct(st: FsState, hs: set<(nat, nat)>)
    requires Ownership(st) && hs <= Holdings(st)
    ensures |Blocks(st, hs)| == |hs|
    decreases |hs|
  {
    hide Ownership, Held;
    if hs != {} {
      var h :| h in hs;
      BlocksDistinct(st, hs - {h});
      assert Blocks(st, hs) == Blocks(st, hs - {h}) + {Held(st, h.0, h.1)};
      forall g | g in hs - {h} ensures Held(st, g.0, g.1) != Held(st, h.0, h.1) {
        HoldingsDiffer(st, g, h);
      }
    }
  }

  lemma HoldingsDiffer(st: FsState, g: (nat, nat), h: (nat, nat))
    requires Ownership(st) && g in Holdings(st) && h in Holdings(st) && g != h
    ensures Held(st, g.0, g.1) != Held(st, h.0, h.1)
  {
    assert Live(st, g.0) && Live(st, h.0);
  }

  function UpTo(n: nat): (s: set<nat>)
    ensures |s| == n
    ensures forall b: nat :: b in s <==> 1 <= b <= n
  {
    if n == 0 then {} else UpTo(n - 1) + {n}
  }

  lemma TakenIs(st: FsState, b: nat)
    requires Shape(st) && Ownership(st)
    ensures b in Taken(st) <==> b in UpTo(st.reserved + 1) || b in Blocks(st, Holdings(st))
    ensures !(b in UpTo(st.reserved + 1) && b in Blocks(st, Holdings(st)))
  {
    if b in Blocks(st, Holdings(st)) {
      var h :| h in Holdings(st) && Held(st, h.0, h.1) == b;
      assert Live(st, h.0) && DataBlock(st, b);
    }
    if DataBlock(st, b) && st.used[b - 1] {
      assert HeldBySome(st, b);
      var id: nat, i: nat :| Live(st, id) && i < NDIRECT && Held(st, id, i) == b;
      assert (id, i) in Holdings(st);
    }
  }

  /** Conservation of space: every set bit is the reserved prefix or one holding. */
  lemma SpaceConserved(st: FsState)
    requires Shape(st) && Ownership(st)
    ensures |Taken(st)| == st.reserved + 1 + |Holdings(st)|
  {
    hide Ownership, Taken, Holdings, Blocks;
    var held, prefix := Blocks(st, Holdings(st)), UpTo(st.reserved + 1);
    BlocksDistinct(st, Holdings(st));
    forall b: nat ensures b in Taken(st) <==> b in prefix || b in held
                  ensures !(b in prefix && b in held)
    {
      TakenIs(st, b);
    }
    assert Taken(st) == prefix + held;
    assert prefix !! held;
  }

  /** What a new block changes: one place of one record, and one bit. */
  lemma AttachFrame(st: FsState, id: nat, i: nat, blk: Block)
    requires Shape(st) && Known(st, id) && i < NDIRECT && BlockFree(st)
    ensures var st', n := Attach(st, id, i, blk), FirstClear(st.used);
            && st'.used == st.used[n := true] && st'.reserved == st.reserved
            && (forall x: nat :: Live(st', x) == Live(st, x))
            && (forall x: nat, j: nat :: Known(st, x) && j < NDIRECT ==>
                  Held(st', x, j) == if x == id && j == i then n + 1 else Held(st, x, j))
  {
  }

  lemma AttachOwnership(st: FsState, id: nat, i: nat, blk: Block)
    requires Shape(st) && Ownership(st) && Live(st, id) && i < NDIRECT && Held(st, id, i) == 0 && BlockFree(st)
    ensures Ownership(Attach(st, id, i, blk))
  {
    hide Attach, Held, Live;
    LiveIsKnown(st);
    var st' := Attach(st, id, i, blk);
    var b := FirstClear(st.used) + 1;
    FreeBlockIsUnheld(st);
    AttachFrame(st, id, i, blk);
    LiveIsKnown(st');
    forall c: nat | DataBlock(st', c) && st'.used[c - 1] ensures HeldBySome(st', c) {
      if c == b {
        assert Live(st', id) && Held(st', id, i) == b;
      } else {
        assert HeldBySome(st, c);
        var x: nat, j: nat :| Live(st, x) && j < NDIRECT && Held(st, x, j) == c;
        assert Live(st', x) && Held(st', x, j) == c;
      }
    }
    assert forall x: nat, j: nat :: Live(st, x) && j < NDIRECT ==> Held(st, x, j) != b;
  }

  /** The slots of a directory after it or another inode received a new block: the
      same, provided a directory's own new block is zeroed. */
  lemma AttachSlots(st: FsState, id: nat, i: nat, blk: Block, p: nat)
    requires Shape(st) && Ownership(st) && Live(st, id) && i < NDIRECT && Held(st, id, i) == 0 && BlockFree(st)
    requires Live(st, p)
    requires p == id ==> blk == Zeros(BLOCK_SIZE)
    ensures DirSlots(Attach(st, id, i, blk), p) == DirSlots(st, p)
  {
    var st' := Attach(st, id, i, blk);
    var b := FirstClear(st.used) + 1;
    FreeBlockIsUnheld(st);
    assert forall j: nat :: j < NDIRECT ==> Held(st, p, j) != b;
    if p != id {
      OtherBlock(st, st', p, b);
    } else {
      forall k: nat | k < SLOTS ensures SlotOf(st', Ino(st', p).direct, k) == SlotOf(st, Ino(st, p).direct, k) {
        EntryInZeros(EntryOfSlot(k));
        assert Held(st, p, BlockOfSlot(k)) != b;
      }
    }
  }

  lemma AttachTree(st: FsState, id: nat, i: nat, blk: Block)
    requires Shape(st) && Ownership(st) && Live(st, id) && i < NDIRECT && Held(st, id, i) == 0 && BlockFree(st)
    requires LiveDir(st, id) ==> blk == Zeros(BLOCK_SIZE)
    ensures TreeOf(Attach(st, id, i, blk)) == TreeOf(st)
  {
    forall p: nat | LiveDir(st, p) ensures DirSlots(Attach(st, id, i, blk), p) == DirSlots(st, p) {
      AttachSlots(st, id, i, blk, p);
    }
    SameTree(st, Attach(st, id, i, blk));
  }

  lemma AttachDirectories(st: FsState, id: nat, i: nat, blk: Block)
    requires Shape(st) && Ownership(st) && Directories(st)
    requires Live(st, id) && i < NDIRECT && Held(st, id, i) == 0 && BlockFree(st)
    requires LiveDir(st, id) ==> blk == Zeros(BLOCK_SIZE) && forall j: nat :: j < i ==> Held(st, id, j) != 0
    ensures Directories(Attach(st, id, i, blk))
  {
    var st' := Attach(st, id, i, blk);
    forall p: nat | LiveDir(st', p) ensures DirOk(st', p) {
      assert LiveDir(st, p) && DirOk(st, p);
      AttachSlots(st, id, i, blk, p);
      if p == id {
        assert forall j: nat :: j < i ==> Ino(st, p).direct[j] == Held(st, p, j);
      }
    }
  }

  lemma AttachInv(st: FsState, id: nat, i: nat, blk: Block)
    requires Inv(st) && Live(st, id) && i < NDIRECT && Held(st, id, i) == 0 && BlockFree(st)
    requires LiveDir(st, id) ==> blk == Zeros(BLOCK_SIZE) && forall j: nat :: j < i ==> Held(st, id, j) != 0
    ensures Inv(Attach(st, id, i, blk))
  {
    hide Ownership, Directories, Forest, TreeOf;
    AttachOwnership(st, id, i, blk);
    AttachTree(st, id, i, blk);
    AttachDirectories(st, id, i, blk);
    SameRecords(st, Attach(st, id, i, blk));
  }

  // ---------------------------------------------------------------- entries

  /** Writing entry k of a directory changes slot k of that directory and no other
      slot of any directory. */
  lemma FillSlotSlots(st: FsState, p: nat, k: nat, e: Entry, grow: int, q: nat)
    requires Shape(st) && Ownership(st) && Live(st, p) && k < SLOTS && Held(st, p, BlockOfSlot(k)) != 0
    requires Live(st, q)
    ensures DirSlots(FillSlot(st, p, k, e, grow), q) == if q == p then DirSlots(st, p)[k := e] else DirSlots(st, q)
  {
    var st' := FillSlot(st, p, k, e, grow);
    var b := Held(st, p, BlockOfSlot(k));
    assert DataBlock(st, b);
    if q != p {
      assert forall j: nat :: j < NDIRECT ==> Held(st, q, j) != b;
      OtherBlock(st, st', q, b);
    } else {
      var d := Ino(st, p).direct;
      assert Ino(st', p).direct == d;
      forall l: nat | l < SLOTS ensures SlotOf(st', d, l) == if l == k then e else SlotOf(st, d, l) {
        EntryInPut(BlockAt(st, b), EntryOfSlot(k), e, EntryOfSlot(l));
        assert BlockOfSlot(l) != BlockOfSlot(k) ==> Held(st, p, BlockOfSlot(l)) != b;
        assert BlockOfSlot(l) == BlockOfSlot(k) && EntryOfSlot(l) == EntryOfSlot(k) ==> l == k;
      }
    }
  }

  lemma FillSlotTree(st: FsState, p: nat, k: nat, e: Entry, grow: int)
    requires Shape(st) && Ownership(st) && LiveDir(st, p) && k < SLOTS && Held(st, p, BlockOfSlot(k)) != 0
    ensures TreeOf(FillSlot(st, p, k, e, grow)) == PutSlot(TreeOf(st), p, k, e)
  {
    hide SlotsOf, Ownership;
    var st' := FillSlot(st, p, k, e, grow);
    assert forall id: nat :: Known(st, id) ==> Live(st', id) == Live(st, id) && Ino(st', id).kind == Ino(st, id).kind;
    forall id: nat | LiveDir(st, id) ensures DirSlots(st', id) == PutSlot(TreeOf(st), p, k, e).dirs[id] {
      FillSlotSlots(st, p, k, e, grow, id);
    }
    TreeIs(st', PutSlot(TreeOf(st), p, k, e));
  }

  lemma SameRecords(st: FsState, st': FsState)
    requires Shape(st) && Records(st) && Shape(st')
    requires st'.root == st.root && st'.live == st.live && |st'.inodes| == |st.inodes|
    requires forall id: nat :: Live(st, id) ==>
          Ino(st', id).kind == Ino(st, id).kind && Ino(st', id).id == Ino(st, id).id
    ensures Records(st')
  {
    assert forall id: nat :: Live(st', id) == Live(st, id);
  }

  lemma SameDirectories(st: FsState, st': FsState)
    requires Shape(st) && Directories(st) && Shape(st')
    requires st'.live == st.live && |st'.inodes| == |st.inodes|
    requires forall id: nat :: Live(st, id) ==> Ino(st', id).kind == Ino(st, id).kind
    requires forall id: nat :: LiveDir(st, id) ==> Ino(st', id) == Ino(st, id) && DirSlots(st', id) == DirSlots(st, id)
    ensures Directories(st')
  {
    forall id: nat | LiveDir(st', id) ensures DirOk(st', id) {
      assert LiveDir(st, id) && DirOk(st, id);
    }
  }

  lemma SameHeld(st: FsState, st': FsState)
    requires Shape(st) && Ownership(st) && Shape(st')
    requires st'.live == st.live && st'.used == st.used && st'.reserved == st.reserved && |st'.inodes| == |st.inodes|
    requires forall id: nat :: Live(st, id) ==> Ino(st', id).direct == Ino(st, id).direct
    ensures Ownership(st')
  {
    assert forall id: nat :: Live(st', id) == Live(st, id);
    assert forall id: nat, i: nat :: Live(st, id) && i < NDIRECT ==> Held(st', id, i) == Held(st, id, i);
    forall b: nat | DataBlock(st', b) && st'.used[b - 1] ensures HeldBySome(st', b) {
      assert HeldBySome(st, b);
      var id: nat, i: nat :| Live(st, id) && i < NDIRECT && Held(st, id, i) == b;
      assert Live(st', id) && Held(st', id, i) == b;
    }
  }

  lemma FillSlotSize(st: FsState, p: nat, k: nat, e: Entry, grow: int)
    requires Shape(st) && Known(st, p) && k < SLOTS
    requires Ino(st, p).size == 36 * Count(DirSlots(st, p))
    requires grow == 36 * ((if e.inode == 0 then 0 else 1) - (if DirSlots(st, p)[k].inode == 0 then 0 else 1))
    ensures Ino(FillSlot(st, p, k, e, grow), p).size == 36 * Count(DirSlots(st, p)[k := e])
  {
    hide DirSlots, Count, PutEntryIn, BlockAt;
    CountUpdate(DirSlots(st, p), k, e);
    var n := Count(DirSlots(st, p)[k := e]);
    assert Ino(st, p).size + grow == 36 * n;
    assert 0 <= 36 * n < U64_LIMIT;
  }

  lemma FillSlotDirectories(st: FsState, p: nat, k: nat, e: Entry, grow: int)
    requires Shape(st) && Ownership(st) && Directories(st)
    requires LiveDir(st, p) && k < SLOTS && Held(st, p, BlockOfSlot(k)) != 0
    requires grow == 36 * ((if e.inode == 0 then 0 else 1) - (if DirSlots(st, p)[k].inode == 0 then 0 else 1))
    ensures Directories(FillSlot(st, p, k, e, grow))
  {
    var st' := FillSlot(st, p, k, e, grow);
    assert forall id: nat :: Known(st, id) && id != p ==> Ino(st', id) == Ino(st, id);
    assert Ino(st', p).direct == Ino(st, p).direct && Ino(st', p).kind == Ino(st, p).kind;
    forall q: nat | LiveDir(st', q) ensures DirOk(st', q) {
      assert LiveDir(st, q) && DirOk(st, q);
      FillSlotSlots(st, p, k, e, grow, q);
      if q == p {
        FillSlotSize(st, p, k, e, grow);
      }
    }
  }

  lemma FillSlotInv(st: FsState, p: nat, k: nat, e: Entry, grow: int)
    requires Inv(st) && LiveDir(st, p) && k < SLOTS && Held(st, p, BlockOfSlot(k)) != 0
    requires grow == 36 * ((if e.inode == 0 then 0 else 1) - (if DirSlots(st, p)[k].inode == 0 then 0 else 1))
    requires Forest(PutSlot(TreeOf(st), p, k, e))
    ensures Inv(FillSlot(st, p, k, e, grow))
  {
    hide Ownership, Directories, Forest, TreeOf, DirSlots, EntryIn, PutEntryIn;
    var st' := FillSlot(st, p, k, e, grow);
    FillSlotTree(st, p, k, e, grow);
    FillSlotDirectories(st, p, k, e, grow);
    assert forall id: nat :: Known(st, id) && id != p ==> Ino(st', id) == Ino(st, id);
    SameHeld(st, st');
    SameRecords(st, st');
  }

  // ---------------------------------------------------------------- reclaiming

  lemma ReclaimOwnership(st: FsState, id: nat)
    requires Shape(st) && Ownership(st) && Live(st, id)
    ensures Ownership(Reclaim(st, id))
  {
    var st' := Reclaim(st, id);
    assert forall x: nat :: Live(st', x) == (Live(st, x) && x != id);
    forall x: nat, i: nat | Live(st', x) && i < NDIRECT && Held(st, x, i) != 0
      ensures Held(st, x, i) !in Ino(st, id).direct
    {
      forall j: nat | j < NDIRECT ensures Ino(st, id).direct[j] != Held(st, x, i) {
        assert Held(st, id, j) == Ino(st, id).direct[j];
      }
    }
    assert forall x: nat, i: nat :: Live(st', x) && i < NDIRECT ==> Held(st', x, i) == Held(st, x, i);
    forall b: nat | DataBlock(st', b) && st'.used[b - 1] ensures HeldBySome(st', b) {
      assert HeldBySome(st, b);
      var x: nat, i: nat :| Live(st, x) && i < NDIRECT && Held(st, x, i) == b;
      assert Live(st', x) && Held(st', x, i) == b;
    }
    forall n: nat | n <= st.reserved ensures st'.used[n] {
      assert st.used[n];
      forall j: nat | j < NDIRECT ensures Ino(st, id).direct[j] != n + 1 {
        assert Held(st, id, j) == 0 || DataBlock(st, Held(st, id, j));
      }
    }
  }

  lemma ReclaimFrame(st: FsState, id: nat)
    requires Shape(st) && Live(st, id)
    ensures forall x: nat :: Live(Reclaim(st, id), x) == (Live(st, x) && x != id)
    ensures forall x: nat :: Known(st, x) ==> DirSlots(Reclaim(st, id), x) == DirSlots(st, x)
  {
    forall x: nat | Known(st, x) ensures DirSlots(Reclaim(st, id), x) == DirSlots(st, x) {
      SameSlots(st, Reclaim(st, id), Ino(st, x).direct);
    }
  }

  lemma ReclaimTree(st: FsState, id: nat)
    requires Shape(st) && Live(st, id)
    ensures TreeOf(Reclaim(st, id)) == Drop(TreeOf(st), id)
  {
    ReclaimFrame(st, id);
    TreeIs(Reclaim(st, id), Drop(TreeOf(st), id));
  }

  lemma ReclaimDirectories(st: FsState, id: nat)
    requires Shape(st) && Directories(st) && Live(st, id)
    ensures Directories(Reclaim(st, id))
  {
    var st' := Reclaim(st, id);
    ReclaimFrame(st, id);
    forall p: nat | LiveDir(st', p) ensures DirOk(st', p) {
      assert LiveDir(st, p) && DirOk(st, p) && Ino(st', p) == Ino(st, p);
    }
  }

  lemma ReclaimRecords(st: FsState, id: nat)
    requires Shape(st) && Records(st) && Live(st, id) && id != st.root
    ensures Records(Reclaim(st, id))
  {
    hide DirSlots;
    ReclaimFrame(st, id);
  }

  lemma ReclaimInv(st: FsState, id: nat)
    requires Inv(st) && Live(st, id) && id != st.root && Unnamed(TreeOf(st), id)
    ensures Inv(Reclaim(st, id))
    ensures NamesUnique(st) ==> NamesUnique(Reclaim(st, id))
  {
    hide Ownership, Directories, Records, Forest, UniqueTree, Unnamed, TreeOf, Drop, Reclaim;
    ReclaimOwnership(st, id);
    ReclaimTree(st, id);
    ReclaimDirectories(st, id);
    ReclaimRecords(st, id);
    TreeHas(st, id);
    DropForest(TreeOf(st), id);
  }

  // ---------------------------------------------------------------- file contents and sizes

  /** A change that leaves every live directory, the bitmaps and the block pointers alone. */
  ghost predicate KeepsDirs(st: FsState, st': FsState) {
    && st'.root == st.root && st'.reserved == st.reserved && st'.live == st.live && st'.used == st.used
    && |st'.inodes| == |st.inodes|
    && (forall x: nat :: Live(st, x) ==>
          Ino(st', x).direct == Ino(st, x).direct && Ino(st', x).kind == Ino(st, x).kind && Ino(st', x).id
              == Ino(st, x).id)
    && (forall x: nat :: LiveDir(st, x) ==> Ino(st', x) == Ino(st, x) && DirSlots(st', x) == DirSlots(st, x))
  }

  lemma KeepsDirsInv(st: FsState, st': FsState)
    requires Inv(st) && Shape(st') && KeepsDirs(st, st')
    ensures Inv(st') && TreeOf(st') == TreeOf(st)
  {
    hide Ownership, Directories, Records, Forest, TreeOf, DirSlots;
    SameTree(st, st');
    SameHeld(st, st');
    SameRecords(st, st');
    SameDirectories(st, st');
  }

  lemma PutBlockKeepsDirs(st: FsState, id: nat, i: nat, blk: Block)
    requires Shape(st) && Ownership(st) && Live(st, id) && !LiveDir(st, id) && i < NDIRECT && Held(st, id, i) != 0
    ensures KeepsDirs(st, PutBlock(st, Held(st, id, i), blk))
  {
    var b := Held(st, id, i);
    forall p: nat | LiveDir(st, p) ensures DirSlots(PutBlock(st, b, blk), p) == DirSlots(st, p) {
      assert forall j: nat :: j < NDIRECT ==> Held(st, p, j) != b;
      OtherBlock(st, PutBlock(st, b, blk), p, b);
    }
  }

  lemma PutBlockInv(st: FsState, id: nat, i: nat, blk: Block)
    requires Inv(st) && LiveFile(st, id) && i < NDIRECT && Held(st, id, i) != 0
    ensures Inv(PutBlock(st, Held(st, id, i), blk))
    ensures TreeOf(PutBlock(st, Held(st, id, i), blk)) == TreeOf(st)
  {
    hide TreeOf, Forest;
    PutBlockKeepsDirs(st, id, i, blk);
    KeepsDirsInv(st, PutBlock(st, Held(st, id, i), blk));
  }

  lemma SetSizeKeepsDirs(st: FsState, id: nat, size: u64)
    requires Shape(st) && Known(st, id) && !LiveDir(st, id)
    ensures KeepsDirs(st, SetSize(st, id, size))
  {
    forall x: nat | LiveDir(st, x) ensures DirSlots(SetSize(st, id, size), x) == DirSlots(st, x) {
      SameSlots(st, SetSize(st, id, size), Ino(st, x).direct);
    }
  }

  lemma SetSizeInv(st: FsState, id: nat, size: u64)
    requires Inv(st) && LiveFile(st, id)
    ensures Inv(SetSize(st, id, size))
    ensures TreeOf(SetSize(st, id, size)) == TreeOf(st)
  {
    hide TreeOf, Forest;
    SetSizeKeepsDirs(st, id, size);
    KeepsDirsInv(st, SetSize(st, id, size));
  }

  // ---------------------------------------------------------------- format

  lemma FormattedTree(st: FsState)
    requires Formatted(st)
    ensures Forest(TreeOf(st)) && UniqueTree(TreeOf(st))
  {
    FreshSlots(st);
    assert forall id: nat :: Live(st, id) <==> id == 1;
    var t := Tree(1, {1}, map[1 := FreeSlots(SLOTS)]);
    TreeIs(st, t);
    assert forall p: nat, k: nat, c: nat :: !Edge(t, p, k, c);
    assert Ranked(t, map[1 := 0]);
  }

  lemma FormattedOwnership(st: FsState)
    requires Formatted(st)
    ensures Ownership(st)
  {
    assert forall id: nat :: Live(st, id) <==> id == 1;
    assert forall i: nat :: i < NDIRECT ==> Held(st, 1, i) == 0;
  }

  /** The formatted file system satisfies the invariant. */
  lemma FormattedInv(st: FsState)
    requires Formatted(st)
    ensures Inv(st) && NamesUnique(st)
  {
    FormattedOwnership(st);
    FormattedTree(st);
    hide Ownership, Forest, UniqueTree, TreeOf;
    FreshSlots(st);
    CountFree(SLOTS);
    assert forall id: nat :: Live(st, id) <==> id == 1;
  }
}
