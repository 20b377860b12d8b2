/** Create, delete and lookup keep the invariant and act on the name space as
    insertion, removal and search in a finite map. */
module FsNames {
  import opened Bytes
  import opened FsLayout
  import opened FsTree
  import opened FsSpec
  import opened FsInv

  /** What a caller may pass as a directory or file: a live inode, or an id that is
      out of range, which every operation refuses. */
  predicate MayName(st: FsState, id: nat) { Known(st, id) ==> Live(st, id) }

  predicate IsKind(kind: u16) { kind == TYPE_FILE || kind == TYPE_DIR }

  // ---------------------------------------------------------------- linking

  lemma BlockStarts(j: nat, k: nat)
    requires k < SLOTS && j < BlockOfSlot(k)
    ensures j * 113 < k && BlockOfSlot(j * 113) == j
  {
    assert k == BlockOfSlot(k) * 113 + EntryOfSlot(k);
  }

  /** The blocks before the one holding the first free slot are all allocated. */
  lemma EarlierBlocksExist(st: FsState, p: nat, j: nat)
    requires Known(st, p) && FreeSlot(st, p) < SLOTS && j < BlockOfSlot(FreeSlot(st, p))
    ensures Held(st, p, j) != 0
  {
    hide EntryIn;
    var k := j * 113;
    BlockStarts(j, FreeSlot(st, p));
    assert DirSlots(st, p)[k].inode != 0;
    assert DirSlots(st, p)[k] == SlotOf(st, Ino(st, p).direct, k);
  }

  /** The directory as it is when the entry is written: with a zeroed block attached
      when the slot's block was missing. */
  function Grown(st: FsState, p: nat): (r: FsState)
    requires Shape(st) && Known(st, p) && HasRoom(st, p)
    ensures Shape(r) && |r.inodes| == |st.inodes|
  {
    var i := BlockOfSlot(FreeSlot(st, p));
    if Held(st, p, i) == 0 then Attach(st, p, i, Zeros(BLOCK_SIZE)) else st
  }

  lemma GrownInv(st: FsState, p: nat)
    requires Inv(st) && LiveDir(st, p) && HasRoom(st, p)
    ensures Inv(Grown(st, p)) && TreeOf(Grown(st, p)) == TreeOf(st)
    ensures LiveDir(Grown(st, p), p) && DirSlots(Grown(st, p), p) == DirSlots(st, p)
    ensures Held(Grown(st, p), p, BlockOfSlot(FreeSlot(st, p))) != 0
  {
    var i := BlockOfSlot(FreeSlot(st, p));
    if Held(st, p, i) == 0 {
      hide Directories, Forest, TreeOf;
      forall j: nat | j < i ensures Held(st, p, j) != 0 {
        EarlierBlocksExist(st, p, j);
      }
      AttachInv(st, p, i, Zeros(BLOCK_SIZE));
      AttachTree(st, p, i, Zeros(BLOCK_SIZE));
      AttachSlots(st, p, i, Zeros(BLOCK_SIZE), p);
    }
  }

  lemma LinkInv(st: FsState, p: nat, e: Entry)
    requires Inv(st) && LiveDir(st, p) && HasRoom(st, p)
    requires Live(st, e.inode) && e.inode != st.root && e.inode != p && e.raw[MAX_NAME] == 0
    requires Unnamed(TreeOf(st), e.inode)
    requires DirSlots(st, e.inode) == FreeSlots(SLOTS)
    ensures Inv(Link(st, p, e))
    ensures TreeOf(Link(st, p, e)) == PutSlot(TreeOf(st), p, FreeSlot(st, p), e)
  {
    hide Ownership, Directories, Records, Forest, TreeOf, DirSlots, Unnamed, FillSlot, Attach, PutSlot;
    var k := FreeSlot(st, p);
    var g := Grown(st, p);
    GrownInv(st, p);
    TreeHas(st, p);
    TreeHas(st, e.inode);
    LinkForest(TreeOf(st), p, k, e);
    FillSlotInv(g, p, k, e, ENTRY_SIZE);
    FillSlotTree(g, p, k, e, ENTRY_SIZE);
  }

  // ---------------------------------------------------------------- create

  predicate Creates(st: FsState, p: nat, name: Text, mem: bool, lookupMem: bool)
    requires Shape(st)
  {
    !CreateRefused(st, p, name, mem, lookupMem)
  }

  /** A new inode does not change whether a directory has room. */
  lemma RoomUnchanged(st: FsState, kind: u16, p: nat)
    requires Shape(st) && Live(st, p) && InodeFree(st)
    ensures HasRoom(AddInode(st, kind), p) == HasRoom(st, p)
    ensures FreeSlot(AddInode(st, kind), p) == FreeSlot(st, p)
  {
    AddInodeFrame(st, kind);
  }

  lemma FreshIsUnnamed(st: FsState, kind: u16)
    requires Inv(st) && InodeFree(st) && IsKind(kind)
    ensures Unnamed(TreeOf(AddInode(st, kind)), FirstClear(st.live) + 1)
  {
    hide Ownership, Directories, Records, Forest, TreeOf, AddInode, Unnamed, AddNode;
    TreeHas(st, FirstClear(st.live) + 1);
    AddInodeTree(st, kind);
    AddNodeForest(TreeOf(st), FirstClear(st.live) + 1, kind == TYPE_DIR);
  }

  lemma LinkFreshInv(st: FsState, p: nat, name: Text, kind: u16)
    requires Inv(st) && LiveDir(st, p) && InodeFree(st) && IsKind(kind) && HasRoom(st, p) && |name| <= MAX_NAME
    ensures var st1, id := AddInode(st, kind), FirstClear(st.live) + 1;
            && Inv(st1) && Live(st1, id) && HasRoom(st1, p)
            && Inv(Link(st1, p, Entry(id, RawOf(name))))
            && TreeOf(Link(st1, p, Entry(id, RawOf(name))))
               == PutSlot(AddNode(TreeOf(st), id, kind == TYPE_DIR), p, FreeSlot(st, p), Entry(id, RawOf(name)))
  {
    hide Ownership, Directories, Forest, TreeOf, Unnamed, Link, PutSlot, AddInode, FreeSlot, BlockFree;
    var st1, id := AddInode(st, kind), FirstClear(st.live) + 1;
    AddInodeInv(st, kind);
    AddInodeTree(st, kind);
    AddInodeFrame(st, kind);
    RoomUnchanged(st, kind, p);
    FreshIsUnnamed(st, kind);
    RawOfName(name);
    assert st1.root == st.root by { TreeHas(st, id); TreeHas(st1, id); }
    LinkInv(st1, p, Entry(id, RawOf(name)));
  }

  /** Create keeps the invariant, whatever the memory allocator does. */
  lemma CreateInv(st: FsState, p: nat, name: Text, kind: u16, mem: bool, lookupMem: bool)
    requires Inv(st) && MayName(st, p) && IsKind(kind)
    ensures Inv(Create(st, p, name, kind, mem, lookupMem).0)
  {
    hide Ownership, Directories, Records, Forest, TreeOf, Link, AddInode, HasRoom;
    if Creates(st, p, name, mem, lookupMem) {
      RoomUnchanged(st, kind, p);
      if HasRoom(st, p) {
        LinkFreshInv(st, p, name, kind);
      } else {
        AddInodeInv(st, kind);
      }
    }
  }

  // ---------------------------------------------------------------- what create does to names

  /** The condition under which create adds a second entry for a name: its own lookup
      could not allocate memory, so it missed the entry that is already there. */
  predicate Starved(st: FsState, p: nat, name: Text, mem: bool, lookupMem: bool)
    requires Shape(st)
  {
    Creates(st, p, name, mem, lookupMem) && HasRoom(st, p) && Lookup(st, p, name, true) != 0
  }

  lemma CreateTree(st: FsState, p: nat, name: Text, kind: u16, mem: bool, lookupMem: bool)
    requires Inv(st) && MayName(st, p) && IsKind(kind) && Creates(st, p, name, mem, lookupMem)
    ensures var id := FirstClear(st.live) + 1;
            var t := AddNode(TreeOf(st), id, kind == TYPE_DIR);
            && Create(st, p, name, kind, mem, lookupMem).1 == id
            && p in t.dirs
            && TreeOf(Create(st, p, name, kind, mem, lookupMem).0)
               == if HasRoom(st, p) then PutSlot(t, p, FreeSlot(st, p), Entry(id, RawOf(name))) else t
  {
    hide Ownership, Directories, Forest, TreeOf, Link, AddInode, HasRoom;
    RoomUnchanged(st, kind, p);
    TreeHas(st, p);
    if HasRoom(st, p) {
      LinkFreshInv(st, p, name, kind);
    } else {
      AddInodeTree(st, kind);
    }
  }

  lemma TwoMatches(es: seq<Entry>, k: nat, id: u32, name: Text)
    requires k < |es| && es[k].inode == 0 && id != 0 && |name| <= MAX_NAME && Find(es, name) != 0
    ensures !UniqueNames(es[k := Entry(id, RawOf(name))])
  {
    RawOfName(name);
    var es', m := es[k := Entry(id, RawOf(name))], FirstMatch(es, name);
    assert Shows(es'[m], name) && Shows(es'[k], name) && m != k;
    assert if m < k then CString(es'[m].raw) == CString(es'[k].raw) else CString(es'[k].raw) == CString(es'[m].raw);
  }

  lemma UniqueAfterCreate(t: Tree, id: u32, dir: bool, p: nat, k: nat, name: Text)
    requires Forest(t) && UniqueTree(t) && id != 0 && id !in t.live
    requires p in t.dirs && k < SLOTS && t.dirs[p][k].inode == 0 && |name| <= MAX_NAME
    ensures UniqueTree(PutSlot(AddNode(t, id, dir), p, k, Entry(id, RawOf(name)))) <==> Find(t.dirs[p], name) == 0
  {
    var t1 := AddNode(t, id, dir);
    AddNodeForest(t, id, dir);
    assert t1.dirs[p] == t.dirs[p];
    if Find(t.dirs[p], name) == 0 {
      LinkUnique(t1, p, k, id, name);
    } else {
      TwoMatches(t.dirs[p], k, id, name);
      assert PutSlot(t1, p, k, Entry(id, RawOf(name))).dirs[p] == t.dirs[p][k := Entry(id, RawOf(name))];
    }
  }

  /** Names stay unique across a create exactly when its lookup was not starved of memory. */
  lemma CreateUniqueIff(st: FsState, p: nat, name: Text, kind: u16, mem: bool, lookupMem: bool)
    requires Inv(st) && NamesUnique(st) && MayName(st, p) && IsKind(kind)
    ensures NamesUnique(Create(st, p, name, kind, mem, lookupMem).0) <==> !Starved(st, p, name, mem, lookupMem)
  {
    hide Ownership, Directories, Records, Forest, TreeOf, Link, AddInode, HasRoom, UniqueTree, PutSlot,
         AddNode, DirSlots, Find;
    if Creates(st, p, name, mem, lookupMem) {
      CreateTree(st, p, name, kind, mem, lookupMem);
      var id := FirstClear(st.live) + 1;
      TreeHas(st, p);
      TreeHas(st, id);
      if HasRoom(st, p) {
        assert FreeSlot(st, p) < SLOTS && DirSlots(st, p)[FreeSlot(st, p)].inode == 0 by { RoomIsFree(st, p); }
        UniqueAfterCreate(TreeOf(st), id, kind == TYPE_DIR, p, FreeSlot(st, p), name);
      } else {
        AddNodeForest(TreeOf(st), id, kind == TYPE_DIR);
      }
    }
  }

  lemma RoomIsFree(st: FsState, p: nat)
    requires Known(st, p) && HasRoom(st, p)
    ensures FreeSlot(st, p) < SLOTS && DirSlots(st, p)[FreeSlot(st, p)].inode == 0
  {
  }

  /** Creating an absent name: it is entered into the map when the directory has
      room, and every other lookup in every directory answers as before. Without
      room the new inode is returned but stays unnamed. */
  lemma CreateInserts(st: FsState, p: nat, name: Text, kind: u16, mem: bool, lookupMem: bool, q: nat, n: Text)
    requires Inv(st) && MayName(st, p) && IsKind(kind)
    requires Creates(st, p, name, mem, lookupMem) && Lookup(st, p, name, true) == 0
    requires LiveDir(Create(st, p, name, kind, mem, lookupMem).0, q)
    ensures var (st', id) := Create(st, p, name, kind, mem, lookupMem);
            && id != 0 && !Live(st, id) && Live(st', id)
            && Lookup(st', q, n, true) ==
               if q == p && n == name && HasRoom(st, p) then id
               else if q == id then 0
               else Lookup(st, q, n, true)
  {
    hide Ownership, Directories, Forest, TreeOf, Link, AddInode, HasRoom, UniqueTree, DirSlots, Find;
    var (st', id) := Create(st, p, name, kind, mem, lookupMem);
    CreateTree(st, p, name, kind, mem, lookupMem);
    TreeHas(st, p);
    TreeHas(st, q);
    TreeHas(st, id);
    TreeHas(st', q);
    TreeHas(st', id);
    assert Find(FreeSlots(SLOTS), n) == 0 by { NothingFound(n); }
    if HasRoom(st, p) && q == p && |n| <= MAX_NAME {
      RoomIsFree(st, p);
      FindAfterLink(DirSlots(st, p), FreeSlot(st, p), id, name, n);
    }
  }

  lemma NothingFound(n: Text)
    ensures Find(FreeSlots(SLOTS), n) == 0
  {
  }

  // ---------------------------------------------------------------- room

  /** Some allocated block of the directory has an empty entry. */
  ghost predicate SpareSlot(st: FsState, p: nat)
    requires Known(st, p)
  {
    exists k: nat :: k < SLOTS && Held(st, p, BlockOfSlot(k)) != 0 && DirSlots(st, p)[k].inode == 0
  }

  lemma LiveCount(st: FsState)
    requires Shape(st)
    ensures |TreeOf(st).live| <= |st.inodes|
  {
    SubsetSize(TreeOf(st).live, UpTo(|st.inodes|));
  }

  /** With no more inodes than entry slots, no directory of the file system is full. */
  lemma NeverFull(st: FsState, p: nat)
    requires Inv(st) && LiveDir(st, p) && |st.inodes| <= SLOTS
    ensures FreeSlot(st, p) < SLOTS
  {
    hide Forest, TreeOf, Ownership, Directories, SlotsOf, FirstFree;
    LiveCount(st);
    TreeHas(st, p);
    DirectoryHasFreeSlot(TreeOf(st), p);
  }

  lemma SpareSlotFirst(st: FsState, p: nat)
    requires Known(st, p) && Packed(Ino(st, p).direct) && SpareSlot(st, p)
    ensures FreeSlot(st, p) < SLOTS && Held(st, p, BlockOfSlot(FreeSlot(st, p))) != 0
  {
    hide SlotsOf;
    var m: nat :| m < SLOTS && Held(st, p, BlockOfSlot(m)) != 0 && DirSlots(st, p)[m].inode == 0;
    var k := FreeSlot(st, p);
    assert k <= m;
    assert BlockOfSlot(k) <= BlockOfSlot(m);
  }

  /** With no more inodes than entry slots, a directory has room exactly when one of
      its blocks has an empty entry or the disk has a free block. */
  lemma RoomIff(st: FsState, p: nat)
    requires Inv(st) && LiveDir(st, p) && |st.inodes| <= SLOTS
    ensures HasRoom(st, p) <==> SpareSlot(st, p) || BlockFree(st)
  {
    hide Forest, TreeOf, Ownership, SlotsOf, FreeSlot, SpareSlot;
    NeverFull(st, p);
    RoomSlot(st, p);
    assert DirOk(st, p);
    if SpareSlot(st, p) {
      SpareSlotFirst(st, p);
    }
  }

  lemma RoomSlot(st: FsState, p: nat)
    requires Known(st, p) && FreeSlot(st, p) < SLOTS
    ensures DirSlots(st, p)[FreeSlot(st, p)].inode == 0
    ensures Held(st, p, BlockOfSlot(FreeSlot(st, p))) != 0 ==> SpareSlot(st, p)
    ensures forall m: nat :: m < SLOTS && DirSlots(st, p)[m].inode == 0 ==> FreeSlot(st, p) <= m
  {
  }

  /** Creating an absent name when an inode is free always returns an inode; lookup
      then finds it exactly when the directory had a spare entry or the disk a block. */
  lemma CreatedIsFoundIff(st: FsState, p: nat, name: Text, kind: u16)
    requires Inv(st) && LiveDir(st, p) && IsKind(kind) && |st.inodes| <= SLOTS
    requires |name| <= MAX_NAME && Lookup(st, p, name, true) == 0 && InodeFree(st)
    ensures var (st', id) := Create(st, p, name, kind, true, true);
            && id != 0 && Live(st', id)
            && (Lookup(st', p, name, true) == id <==> SpareSlot(st, p) || BlockFree(st))
  {
    hide Inv, TreeOf, Create, HasRoom, Lookup, SpareSlot, BlockFree, InodeFree, DirSlots;
    CreateAccepted(st, p, name);
    CreateKeepsDir(st, p, name, kind);
    CreateInserts(st, p, name, kind, true, true, p, name);
    RoomIff(st, p);
  }

  lemma CreateAccepted(st: FsState, p: nat, name: Text)
    requires Inv(st) && LiveDir(st, p) && |name| <= MAX_NAME && Lookup(st, p, name, true) == 0 && InodeFree(st)
    ensures Shape(st) && Creates(st, p, name, true, true)
  {
    hide Ownership, Directories, Records, Forest, TreeOf, Lookup;
  }

  lemma CreateKeepsDir(st: FsState, p: nat, name: Text, kind: u16)
    requires Inv(st) && LiveDir(st, p) && IsKind(kind) && Shape(st) && Creates(st, p, name, true, true)
    ensures LiveDir(Create(st, p, name, kind, true, true).0, p)
  {
    hide Inv, TreeOf, Create, HasRoom, Lookup, DirSlots;
    CreateTree(st, p, name, kind, true, true);
    TreeHas(Create(st, p, name, kind, true, true).0, p);
  }

  /** What a create does to the two bitmaps. */
  lemma CreateBitmaps(st: FsState, p: nat, name: Text, kind: u16, mem: bool, lookupMem: bool)
    requires Shape(st) && Creates(st, p, name, mem, lookupMem)
    ensures var st' := Create(st, p, name, kind, mem, lookupMem).0;
            && st'.live == st.live[FirstClear(st.live) := true]
            && (st'.used == st.used || (BlockFree(st) && st'.used == st.used[FirstClear(st.used) := true]))
  {
    hide DirSlots, EntryIn, PutEntryIn, BlockAt, Lookup;
  }

  /** The duplicate that CreateUniqueIff speaks of does arise: on a formatted disk, create
      a name and create it again while the second call's lookup has no memory. */
  lemma DuplicateWhenStarved(st: FsState, name: Text)
    requires Formatted(st) && |st.used| >= st.reserved + 3 && 3 <= |st.inodes| <= SLOTS && |name| <= MAX_NAME
    ensures var st1 := Create(st, 1, name, TYPE_FILE, true, true).0;
            Inv(st1) && NamesUnique(st1) && !NamesUnique(Create(st1, 1, name, TYPE_FILE, true, false).0)
  {
    FormattedEmpty(st, name);
    FormattedInv(st);
    FormattedBits(st);
    hide Inv, NamesUnique, TreeOf, Create, HasRoom, Lookup, SpareSlot, DirSlots, Formatted;
    var st1 := Create(st, 1, name, TYPE_FILE, true, true).0;
    CreateAccepted(st, 1, name);
    CreateInv(st, 1, name, TYPE_FILE, true, true);
    CreateUniqueIff(st, 1, name, TYPE_FILE, true, true);
    CreateKeepsDir(st, 1, name, TYPE_FILE);
    CreateInserts(st, 1, name, TYPE_FILE, true, true, 1, name);
    CreateBitmaps(st, 1, name, TYPE_FILE, true, true);
    RoomIff(st, 1);
    assert Lookup(st1, 1, name, true) != 0;
    assert !st1.used[st.reserved + 2] && !st1.live[2];
    InvSizes(st1);
    RoomIff(st1, 1);
    LookupNoMem(st1, 1, name);
    CreateUniqueIff(st1, 1, name, TYPE_FILE, true, false);
  }

  lemma LookupNoMem(st: FsState, p: nat, name: Text)
    ensures Lookup(st, p, name, false) == 0
    ensures !Known(st, p) ==> Lookup(st, p, name, true) == 0
    ensures Live(st, p) && !LiveDir(st, p) ==> Lookup(st, p, name, true) == 0
  {
  }

  lemma InvSizes(st: FsState)
    requires Inv(st)
    ensures Shape(st) && |st.live| == |st.inodes|
  {
    hide Ownership, Directories, Records, Forest, TreeOf;
  }

  lemma FormattedBits(st: FsState)
    requires Formatted(st) && |st.used| >= st.reserved + 3 && |st.inodes| >= 3
    ensures FirstClear(st.used) == st.reserved + 1 && FirstClear(st.live) == 1
    ensures !st.used[st.reserved + 2] && !st.live[2]
  {
    assert st.live[0] && !st.live[1] && !st.used[st.reserved + 1];
  }

  lemma FormattedEmpty(st: FsState, name: Text)
    requires Formatted(st) && 2 <= |st.inodes|
    ensures LiveDir(st, 1) && Lookup(st, 1, name, true) == 0 && InodeFree(st) && !SpareSlot(st, 1)
    ensures BlockFree(st) <==> |st.used| > st.reserved + 1
  {
    FreshSlots(st);
    NothingFound(name);
    assert !st.live[1];
    assert forall i: nat :: i < NDIRECT ==> Held(st, 1, i) == 0;
    assert |st.used| > st.reserved + 1 ==> !st.used[st.reserved + 1];
  }

  // ---------------------------------------------------------------- delete

  lemma DeleteTarget(st: FsState, p: nat, name: Text)
    requires Inv(st) && DeleteFinds(st, p, name, true) && Live(st, p)
    ensures var k := FirstMatch(DirSlots(st, p), name);
            var target := DirSlots(st, p)[k].inode;
            && k < SLOTS && target != 0 && Live(st, target) && target != st.root && target != p
            && Held(st, p, BlockOfSlot(k)) != 0
            && target == Lookup(st, p, name, true)
            && Edge(TreeOf(st), p, k, target)
  {
    hide Ownership, Directories, EntryIn;
    var k := FirstMatch(DirSlots(st, p), name);
    var target := DirSlots(st, p)[k].inode;
    TreeHas(st, p);
    TreeHas(st, target);
    var t := TreeOf(st);
    assert Edge(t, p, k, target);
    NoSelfEdge(t, p, k);
    assert DirSlots(st, p)[k] == SlotOf(st, Ino(st, p).direct, k);
  }

  lemma NoSelfEdge(t: Tree, p: nat, k: nat)
    requires Acyclic(t)
    ensures !Edge(t, p, k, p)
  {
  }

  /** After the entry is cleared the target is unnamed. */
  lemma UnlinkInv(st: FsState, p: nat, name: Text)
    requires Inv(st) && DeleteFinds(st, p, name, true) && Live(st, p)
    ensures var k := FirstMatch(DirSlots(st, p), name);
            var target := DirSlots(st, p)[k].inode;
            var st1 := FillSlot(st, p, k, NO_ENTRY, -ENTRY_SIZE);
            && Inv(st1) && TreeOf(st1) == PutSlot(TreeOf(st), p, k, NO_ENTRY)
            && Live(st1, target) && target != st1.root && Unnamed(TreeOf(st1), target)
            && (NamesUnique(st) ==> NamesUnique(st1))
  {
    hide Ownership, Directories, Forest, TreeOf, DirSlots, Unnamed, PutSlot, UniqueTree, EntryIn, PutEntryIn;
    var k := FirstMatch(DirSlots(st, p), name);
    DeleteTarget(st, p, name);
    TreeHas(st, p);
    UnlinkForest(TreeOf(st), p, k);
    FillSlotInv(st, p, k, NO_ENTRY, -ENTRY_SIZE);
    FillSlotTree(st, p, k, NO_ENTRY, -ENTRY_SIZE);
  }

  /** Delete keeps the invariant and the uniqueness of names. */
  lemma DeleteInv(st: FsState, p: nat, name: Text, mem: bool, targetMem: bool)
    requires Inv(st) && MayName(st, p)
    ensures Inv(Delete(st, p, name, mem, targetMem).0)
    ensures NamesUnique(st) ==> NamesUnique(Delete(st, p, name, mem, targetMem).0)
  {
    hide Ownership, Directories, Records, Forest, TreeOf, DirSlots, Unnamed, UniqueTree, FillSlot, Reclaim;
    if DeleteFinds(st, p, name, mem) {
      var k := FirstMatch(DirSlots(st, p), name);
      var st1 := FillSlot(st, p, k, NO_ENTRY, -ENTRY_SIZE);
      DeleteTarget(st, p, name);
      UnlinkInv(st, p, name);
      if targetMem {
        ReclaimInv(st1, DirSlots(st, p)[k].inode);
      }
    }
  }

  /** Delete succeeds exactly when the name is there (and the target's record can be
      copied); the name is then gone, its inode is no longer live, and every other
      lookup in every remaining directory answers as before. */
  lemma DeleteRemoves(st: FsState, p: nat, name: Text, mem: bool, targetMem: bool, q: nat, n: Text)
    requires Inv(st) && NamesUnique(st) && MayName(st, p)
    requires LiveDir(Delete(st, p, name, mem, targetMem).0, q)
    ensures var (st', ret) := Delete(st, p, name, mem, targetMem);
            var target := Lookup(st, p, name, mem);
            && (ret == 0 <==> target != 0 && targetMem) && (ret == 0 || ret == -1)
            && (ret == 0 ==> Live(st, target) && !Live(st', target))
            && (forall id: nat :: Live(st', id) <==> Live(st, id) && !(ret == 0 && id == target))
            && LiveDir(st, q)
            && Lookup(st', q, n, true) == if q == p && n == name && target != 0 then 0 else Lookup(st, q, n, true)
  {
    hide Ownership, Directories, Records, Forest, TreeOf, UniqueTree, SlotsOf, Find, UniqueNames, EntryIn, PutEntryIn;
    var (st', ret) := Delete(st, p, name, mem, targetMem);
    if DeleteFinds(st, p, name, mem) {
      var k := FirstMatch(DirSlots(st, p), name);
      var st1 := FillSlot(st, p, k, NO_ENTRY, -ENTRY_SIZE);
      DeleteTarget(st, p, name);
      assert LiveDir(st, q) && LiveDir(st1, q);
      FillSlotSlots(st, p, k, NO_ENTRY, -ENTRY_SIZE, q);
      if targetMem {
        ReclaimFrame(st1, DirSlots(st, p)[k].inode);
      }
      assert DirSlots(st', q) == DirSlots(st1, q);
      assert UniqueNames(DirSlots(st, p)) by { UniqueDir(st, p); }
      FindAfterUnlink(DirSlots(st, p), name, n);
    } else {
      NotFound(st, p, name, mem);
    }
  }

  lemma UniqueDir(st: FsState, p: nat)
    requires Shape(st) && NamesUnique(st) && LiveDir(st, p)
    ensures UniqueNames(DirSlots(st, p))
  {
    hide UniqueNames, DirSlots;
    TreeHas(st, p);
  }

  lemma NotFound(st: FsState, p: nat, name: Text, mem: bool)
    requires !DeleteFinds(st, p, name, mem)
    ensures Lookup(st, p, name, mem) == 0
  {
  }

  /** The holdings of one live inode. */
  function HoldingsOf(st: FsState, id: nat): (hs: set<(nat, nat)>)
    ensures hs <= Holdings(st)
  {
    set h | h in Holdings(st) && h.0 == id
  }

  /** A successful delete gives back exactly the blocks of its target: they were taken,
      each counts once, and no other bit changes. */
  lemma DeleteFreesBlocks(st: FsState, p: nat, name: Text, target: nat)
    requires Inv(st) && MayName(st, p)
    requires Known(st, target) && target == Lookup(st, p, name, true)
    ensures var st' := Delete(st, p, name, true, true).0;
            var freed := Blocks(st, HoldingsOf(st, target));
            && freed <= Taken(st) && Taken(st') == Taken(st) - freed
            && |Taken(st')| + |HoldingsOf(st, target)| == |Taken(st)|
  {
    hide Inv, Delete, Lookup, Ownership, Taken, Blocks;
    InvOwns(st);
    DeleteUsed(st, p, name, target);
    var st' := Delete(st, p, name, true, true).0;
    var hs := HoldingsOf(st, target);
    var freed := Blocks(st, hs);
    BlocksDistinct(st, hs);
    forall b: nat ensures b in Taken(st') <==> b in Taken(st) && b !in freed {
      FreedBit(st, st', target, b);
    }
    forall b | b in freed ensures b in Taken(st) {
      TakenIs(st, b);
      BlocksOfFew(st, hs, b);
    }
    assert Taken(st') == Taken(st) - freed;
    assert Taken(st) == Taken(st') + freed;
  }

  lemma FreedBit(st: FsState, st': FsState, target: nat, b: nat)
    requires Live(st, target)
    requires st'.used == seq(|st.used|, n requires 0 <= n < |st.used| => st.used[n] && n + 1 !in Ino(st, target).direct)
    ensures b in Taken(st') <==> b in Taken(st) && b !in Blocks(st, HoldingsOf(st, target))
  {
    if b != 0 && b in Ino(st, target).direct {
      var i: nat :| i < NDIRECT && Ino(st, target).direct[i] == b;
      assert Held(st, target, i) == b && (target, i) in HoldingsOf(st, target);
    }
  }

  lemma BlocksOfFew(st: FsState, hs: set<(nat, nat)>, b: nat)
    requires hs <= Holdings(st) && b in Blocks(st, hs)
    ensures b in Blocks(st, Holdings(st))
  {
  }

  lemma InvOwns(st: FsState)
    requires Inv(st)
    ensures Shape(st) && Ownership(st)
  {
    hide Ownership, Directories, Records, Forest, TreeOf;
  }

  lemma DeleteUsed(st: FsState, p: nat, name: Text, target: nat)
    requires Inv(st) && MayName(st, p)
    requires Known(st, target) && target == Lookup(st, p, name, true)
    ensures Shape(st) && Live(st, target)
    ensures Delete(st, p, name, true, true).0.used
         == seq(|st.used|, n requires 0 <= n < |st.used| => st.used[n] && n + 1 !in Ino(st, target).direct)
  {
    hide Ownership, Directories, Records, Forest, TreeOf, DirSlots, EntryIn, PutEntryIn;
    DeleteTarget(st, p, name);
  }
}
