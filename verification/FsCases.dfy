/** Runs from a formatted disk on which the code does not do what its caller expects: a
    full disk that leaves a new inode without a name, a byte lost to a write far beyond
    it, and a read that stores more than it was asked for. */
module FsCases {
  import opened Bytes
  import opened FsLayout
  import opened FsTree
  import opened FsSpec
  import opened FsInv
  import opened FsNames
  import opened FsBytes
  import opened FsRun
  import opened FsRefine

  // ---------------------------------------------------------------- runs step by step

  lemma SoundCons(st: FsState, op: Op, ops: seq<Op>)
    requires Shape(st) && Sound(st, op) && SoundRun(Step(st, op).0, ops)
    ensures SoundRun(st, [op] + ops) && LegalRun(st, [op] + ops) && LegalRun(Step(st, op).0, ops)
    ensures Run(st, [op] + ops) == Run(Step(st, op).0, ops)
  {
    hide Step, Starved;
    assert ([op] + ops)[1..] == ops;
    SoundIsLegal(st, [op] + ops);
  }

  lemma SoundOne(st: FsState, op: Op)
    requires Shape(st) && Sound(st, op)
    ensures SoundRun(st, [op]) && LegalRun(st, [op]) && Run(st, [op]) == Step(st, op).0
  {
    hide Step, Starved;
    assert [op][1..] == [];
  }

  // ---------------------------------------------------------------- counting free blocks

  function ClearBits(bits: seq<bool>): (n: nat)
    ensures n <= |bits|
  {
    if bits == [] then 0 else ClearBits(bits[1..]) + if bits[0] then 0 else 1
  }

  lemma {:induction false} ClearBitsSet(bits: seq<bool>, i: nat)
    requires i < |bits| && !bits[i]
    ensures ClearBits(bits[i := true]) == ClearBits(bits) - 1
  {
    if i > 0 {
      assert bits[i := true][1..] == bits[1..][i - 1 := true];
      ClearBitsSet(bits[1..], i - 1);
    } else {
      assert bits[i := true][1..] == bits[1..];
    }
  }

  lemma {:induction false} NoClearBits(bits: seq<bool>)
    ensures ClearBits(bits) == 0 <==> FirstClear(bits) == |bits|
  {
    if bits != [] {
      NoClearBits(bits[1..]);
    }
  }

  /** A turn of the write loop on a missing block takes one block. */
  lemma TurnTakesBlock(st: FsState, id: nat, i: nat, bytes: seq<Byte>)
    requires Shape(st) && Known(st, id) && i < NDIRECT && Held(st, id, i) == 0 && BlockFree(st) && |bytes| <= BLOCK_SIZE
    ensures var st' := WriteStep(st, id, i, 0, bytes);
            && ClearBits(st'.used) == ClearBits(st.used) - 1
            && Held(st', id, i) != 0
            && forall k: nat :: k < NDIRECT && k != i ==> Held(st', id, k) == Held(st, id, k)
  {
    hide BlockAt, ClearBits;
    ClearBitsSet(st.used, FirstClear(st.used));
  }

  /** Writing ten blocks into an empty file takes ten blocks, or all that are left. */
  lemma {:induction false} FillFile(st: FsState, id: nat, buf: seq<Byte>, i: nat)
    requires Inv(st) && LiveFile(st, id) && i <= NDIRECT && |buf| == 40960
    requires forall k: nat :: i <= k < NDIRECT ==> Held(st, id, k) == 0
    ensures Shape(st)
    ensures var left := ClearBits(WriteLoop(st, id, 0, buf, 4096 * i).0.used);
            left == 0 || left == ClearBits(st.used) - (10 - i)
    decreases NDIRECT - i
  {
    hide Inv, TreeOf, ByteAt, OnlyFile, WriteStep, WriteLoop, ClearBits, KeepsOutside;
    InvShape(st);
    if i == NDIRECT {
      WriteLoopDone(st, id, 0, buf);
    } else {
      WriteLoopUnfold(st, id, 0, buf, 4096 * i);
      NoClearBits(st.used);
      if BlockFree(st) {
        var bytes := buf[4096 * i..4096 * i + 4096];
        WriteStepBytes(st, id, i, 0, bytes);
        TurnTakesBlock(st, id, i, bytes);
        FillFile(WriteStep(st, id, i, 0, bytes), id, buf, i + 1);
      }
    }
  }

  lemma WriteUsed(st: FsState, id: nat, offset: u64, buf: seq<Byte>)
    requires Shape(st) && Known(st, id) && IsFile(Ino(st, id)) && |buf| < U64_LIMIT
    ensures Write(st, id, offset, buf, true).0.used == WriteLoop(st, id, offset, buf, 0).0.used
  {
    hide WriteLoop;
  }

  // ---------------------------------------------------------------- filling the disk

  lemma {:induction false} NewIdAt(a: Simple, i: nat, j: nat)
    requires i <= j <= a.total && j !in a.kinds && forall k: nat :: i <= k < j ==> k in a.kinds
    ensures NewId(a, i) == j
    decreases j - i
  {
    if i < j {
      NewIdAt(a, i + 1, j);
    }
  }

  lemma CreateOthers(st: FsState, p: nat, name: Text, kind: u16, y: nat)
    requires Inv(st) && LiveDir(st, p) && Live(st, y) && y != p
    ensures Shape(st) && Known(Create(st, p, name, kind, true, true).0, y)
    ensures Ino(Create(st, p, name, kind, true, true).0, y) == Ino(st, y)
  {
    hide Inv, DirSlots, HasRoom, Lookup, Link, AddInode;
    InvShape(st);
    if Creates(st, p, name, true, true) {
      AddInodeFrame(st, kind);
      if HasRoom(AddInode(st, kind), p) {
        LinkAttributes(AddInode(st, kind), p, Entry(FirstClear(st.live) + 1, RawOf(name)));
      }
    }
  }

  /** Inodes 1 to j - 1 exist, 1 and 2 are directories, every name is one byte below j in
      the root, and directory 2 has no blocks. */
  ghost predicate Filling(st: FsState, a: Simple, j: nat) {
    && Represents(st, a) && 3 <= j <= a.total <= 255
    && (forall id: nat :: id in a.kinds <==> 1 <= id < j)
    && HasKind(a, 1, TYPE_DIR) && HasKind(a, 2, TYPE_DIR)
    && (forall k :: k in a.names ==> k.0 == 1 && |k.1| == 1 && k.1[0] < j)
    && Known(st, 2) && Ino(st, 2).direct == [0, 0, 0, 0, 0, 0, 0, 0, 0, 0]
  }

  lemma FillingLive(st: FsState, a: Simple, j: nat)
    requires Filling(st, a, j)
    ensures Inv(st) && Shape(st) && a.total == |st.inodes| && LiveDir(st, 1) && LiveDir(st, 2) && MayName(st, 1)
    ensures 3 <= j <= a.total <= 255 && Lookup(st, 1, [j], true) == 0 && NewId(a, 1) == j
    ensures forall name: Text :: Lookup(st, 2, name, true) == 0
  {
    hide Inv, NamesUnique, SameBytes, Lookup;
    InvShape(st);
    HasKindIs(st, a, 1);
    HasKindIs(st, a, 2);
    NewIdAt(a, 1, j);
    LookupIsResolve(st, a, 1, [j]);
    assert ((1, [j]) in a.names) == false;
    forall name: Text ensures Lookup(st, 2, name, true) == 0 {
      LookupIsResolve(st, a, 2, name);
      assert (2, name) in a.names ==> (2, name).0 == 1;
    }
  }

  /** A create in the root at stage j makes inode j under the one-byte name j. */
  lemma FillCreate(st: FsState, a: Simple, j: nat, kind: u16) returns (a': Simple)
    requires Filling(st, a, j) && j < a.total && IsKind(kind)
    ensures Shape(st) && Sound(st, CreateOp(1, [j], kind, true, true))
    ensures var st' := Step(st, CreateOp(1, [j], kind, true, true)).0;
            && Filling(st', a', j + 1) && a'.total == a.total && HasKind(a', j, kind)
            && (ClearBits(st'.used) == ClearBits(st.used) || ClearBits(st'.used) == ClearBits(st.used) - 1)
            && Ino(st', j) == FreshInode(j, kind, 0x1A4)
  {
    hide Represents, SimpleStep, SpaceRule, Create, Lookup, HasRoom, ClearBits, Creates;
    var op := CreateOp(1, [j], kind, true, true);
    FillingLive(st, a, j);
    assert Sound(st, op);
    StepRefines(st, a, op);
    a' := SimpleStep(a, op, SpaceOf(st, op)).0;
    assert Represents(st, a);
    FillStepNames(a, j, kind, SpaceOf(st, op));
    CreateOthers(st, 1, [j], kind, 2);
    FillCreates(st, a, j);
    CreatedIsEmpty(st, 1, [j], kind, true, true);
    CreateReturns(st, 1, [j], kind, true, true);
    CreateClears(st, j, kind);
  }

  lemma FillCreates(st: FsState, a: Simple, j: nat)
    requires Filling(st, a, j)
    ensures Shape(st) && Creates(st, 1, [j], true, true) && FirstClear(st.live) + 1 == j
  {
    hide Inv, NamesUnique, SameKinds, SameNames, SameBytes, Lookup, Creates;
    FillingLive(st, a, j);
    CreatesAgrees(st, a, 1, [j], true, true);
    LookupIsResolve(st, a, 1, [j]);
  }

  lemma FillStepNames(a: Simple, j: nat, kind: u16, space: Space)
    requires 3 <= j < a.total <= 255 && NewId(a, 1) == j && Resolve(a, 1, [j]) == 0
    requires HasKind(a, 1, TYPE_DIR) && HasKind(a, 2, TYPE_DIR)
    requires forall id: nat :: id in a.kinds <==> 1 <= id < j
    requires forall k :: k in a.names ==> k.0 == 1 && |k.1| == 1 && k.1[0] < j
    ensures var a' := SimpleStep(a, CreateOp(1, [j], kind, true, true), space).0;
            && a'.total == a.total && HasKind(a', 1, TYPE_DIR) && HasKind(a', 2, TYPE_DIR) && HasKind(a', j, kind)
            && (forall id: nat :: id in a'.kinds <==> 1 <= id < j + 1)
            && (forall k :: k in a'.names ==> k.0 == 1 && |k.1| == 1 && k.1[0] < j + 1)
  {
  }

  lemma CreateClears(st: FsState, j: nat, kind: u16)
    requires Shape(st) && 1 <= j < 256 && Creates(st, 1, [j], true, true)
    ensures var left := ClearBits(Create(st, 1, [j], kind, true, true).0.used);
            left == ClearBits(st.used) || left == ClearBits(st.used) - 1
  {
    hide Create, Creates, ClearBits;
    CreateBitmaps(st, 1, [j], kind, true, true);
    if BlockFree(st) {
      ClearBitsSet(st.used, FirstClear(st.used));
    }
  }

  /** Ten blocks of zeros written into the new file j. */
  lemma FillWrite(st: FsState, a: Simple, j: nat) returns (a': Simple)
    requires Filling(st, a, j + 1) && 3 <= j && HasKind(a, j, TYPE_FILE) && Ino(st, j)
        == FreshInode(j, TYPE_FILE, 0x1A4)
    ensures Shape(st) && Sound(st, WriteOp(j, 0, Zeros(40960), true))
    ensures var st' := Step(st, WriteOp(j, 0, Zeros(40960), true)).0;
            && Filling(st', a', j + 1) && a'.total == a.total
            && (ClearBits(st'.used) == 0 || ClearBits(st'.used) == ClearBits(st.used) - 10)
  {
    hide Inv, NamesUnique, SameNames, SameBytes, Write, ClearBits, SpaceRule, WriteLoop, OnlyFile, SimpleStep, SpaceOf;
    var op := WriteOp(j, 0, Zeros(40960), true);
    FillingLive(st, a, j + 1);
    assert MayName(st, j);
    HasKindIs(st, a, j);
    StepRefines(st, a, op);
    a' := SimpleStep(a, op, SpaceOf(st, op)).0;
    WriteKeepsNames(a, op, SpaceOf(st, op));
    FillFile(st, j, Zeros(40960), 0);
    WriteUsed(st, j, 0, Zeros(40960));
    WriteInv(st, j, 0, Zeros(40960), true);
    WriteOthers(st, Write(st, j, 0, Zeros(40960), true).0, j, 2);
  }

  lemma WriteKeepsNames(a: Simple, op: Op, space: Space)
    requires op.WriteOp?
    ensures var a' := SimpleStep(a, op, space).0;
            a'.total == a.total && a'.kinds == a.kinds && a'.names == a.names
  {
    hide SimpleWrite;
    SimpleWriteKeeps(a, op.id, Place(op.offset), op.buf[..Min(space.stored, |op.buf|)]);
  }

  lemma SimpleWriteKeeps(a: Simple, id: nat, offset: nat, written: seq<Byte>)
    ensures var a' := SimpleWrite(a, id, offset, written);
            a'.total == a.total && a'.kinds == a.kinds && a'.names == a.names
  {
  }

  lemma WriteOthers(st: FsState, st': FsState, id: nat, y: nat)
    requires OnlyFile(st, st', id) && Live(st, y) && y != id
    ensures Known(st', y) && Ino(st', y) == Ino(st, y)
  {
    hide ByteAt;
  }

  /** From stage j on, one full file after the other uses up the disk. */
  lemma {:induction false} FillDisk(st: FsState, a: Simple, j: nat) returns (ops: seq<Op>, a': Simple, j': nat)
    requires Filling(st, a, j) && ClearBits(st.used) <= 10 * (a.total - j)
    ensures Shape(st) && SoundRun(st, ops) && LegalRun(st, ops)
    ensures Filling(Run(st, ops), a', j') && !BlockFree(Run(st, ops))
    decreases a.total - j
  {
    hide Filling, Step, Starved, ClearBits;
    FillingLive(st, a, j);
    NoClearBits(st.used);
    if ClearBits(st.used) == 0 {
      ops, a', j' := [], a, j;
      assert !BlockFree(st);
    } else {
      var create, write := CreateOp(1, [j], TYPE_FILE, true, true), WriteOp(j, 0, Zeros(40960), true);
      var a1 := FillCreate(st, a, j, TYPE_FILE);
      var st1 := Step(st, create).0;
      var a2 := FillWrite(st1, a1, j);
      var st2 := Step(st1, write).0;
      var rest;
      rest, a', j' := FillDisk(st2, a2, j + 1);
      SoundCons(st1, write, rest);
      SoundCons(st, create, [write] + rest);
      ops := [create] + ([write] + rest);
    }
  }

  /** The first step: a directory below the root. */
  lemma FirstDirectory(st: FsState) returns (a: Simple)
    requires Formatted(st) && 3 <= |st.inodes| <= 255
    ensures Sound(st, CreateOp(1, [2], TYPE_DIR, true, true))
    ensures var st' := Step(st, CreateOp(1, [2], TYPE_DIR, true, true)).0;
            Filling(st', a, 3) && a.total == |st.inodes| && |st'.used| == |st.used|
  {
    hide Inv, NamesUnique, SameKinds, SameNames, SameBytes, Create, SpaceRule, Lookup, HasRoom, Creates,
         Formatted, SimpleStep;
    var op, a0 := CreateOp(1, [2], TYPE_DIR, true, true), Blank(|st.inodes|);
    FormattedEmpty(st, [2]);
    FormattedRepresents(st);
    InvShape(st);
    FormattedInv(st);
    CreateAccepted(st, 1, [2]);
    StepRefines(st, a0, op);
    a := SimpleStep(a0, op, SpaceOf(st, op)).0;
    NewIdAt(a0, 1, 2);
    assert a == SimpleCreate(a0, 1, [2], TYPE_DIR, 2, SpaceOf(st, op).room) by { FirstStep(a0, SpaceOf(st, op)); }
    CreatesAgrees(st, a0, 1, [2], true, true);
    CreateReturns(st, 1, [2], TYPE_DIR, true, true);
    CreatedIsEmpty(st, 1, [2], TYPE_DIR, true, true);
    CreateBitmaps(st, 1, [2], TYPE_DIR, true, true);
  }

  lemma FirstStep(a: Simple, space: Space)
    requires a == Blank(a.total) && NewId(a, 1) == 2
    ensures SimpleStep(a, CreateOp(1, [2], TYPE_DIR, true, true), space).0
        == SimpleCreate(a, 1, [2], TYPE_DIR, 2, space.room)
  {
  }

  /** Creating the name returns a live inode that looking the name up does not find. */
  predicate Orphans(st: FsState, p: nat, name: Text)
    requires Shape(st)
  {
    var (s, id) := Create(st, p, name, TYPE_FILE, true, true);
    id != 0 && Live(s, id) && Lookup(s, p, name, true) == 0
  }

  /** A run that fills the formatted disk: afterwards a create in directory 2 returns a
      live inode that no lookup finds. The geometry of fs_init, 128 inodes and 1024
      blocks, is one of those meant. */
  lemma FullDiskOrphan(st: FsState, name: Text)
    requires Formatted(st) && 3 <= |st.inodes| <= 255 && |st.used| <= 10 * (|st.inodes| - 3) && |name| <= MAX_NAME
    ensures exists ops :: SoundRun(st, ops) && LegalRun(st, ops) && Orphans(Run(st, ops), 2, name)
  {
    hide Step, Starved, Orphans, SoundRun, LegalRun, Filling;
    var a := FirstDirectory(st);
    var op := CreateOp(1, [2], TYPE_DIR, true, true);
    var st1 := Step(st, op).0;
    var rest, a', j := FillDisk(st1, a, 3);
    SoundCons(st, op, rest);
    OrphanNow(Run(st1, rest), a', j, name);
    var ops := [op] + rest;
    assert SoundRun(st, ops);
  }

  lemma OrphanNow(st: FsState, a: Simple, j: nat, name: Text)
    requires Filling(st, a, j) && !BlockFree(st) && |name| <= MAX_NAME
    ensures Shape(st) && Orphans(st, 2, name)
  {
    hide Inv, NamesUnique, SameKinds, SameNames, SameBytes, Lookup, Create, HasRoom, DirSlots, TreeOf;
    FillingLive(st, a, j);
    FillCreates(st, a, j);
    CreateAccepted(st, 2, name);
    CreateKeepsDir(st, 2, name, TYPE_FILE);
    CreateInserts(st, 2, name, TYPE_FILE, true, true, 2, name);
    RoomIff(st, 2);
    assert !SpareSlot(st, 2);
  }

  // ---------------------------------------------------------------- one file

  /** Create the first file on a formatted disk. */
  lemma FirstFile(st: FsState, name: Text)
    requires Formatted(st) && 3 <= |st.inodes| <= SLOTS && |st.used| >= st.reserved + 3 && |name| <= MAX_NAME
    ensures Sound(st, CreateOp(1, name, TYPE_FILE, true, true))
    ensures var st' := Step(st, CreateOp(1, name, TYPE_FILE, true, true)).0;
            Inv(st') && LiveFile(st', 2) && Ino(st', 2) == FreshInode(2, TYPE_FILE, 0x1A4) && BlockFree(st')
  {
    hide Inv, NamesUnique, Create, Lookup, HasRoom, Creates, Formatted, SpareSlot, DirSlots, TreeOf;
    FormattedEmpty(st, name);
    FormattedInv(st);
    FormattedBits(st);
    InvShape(st);
    CreateAccepted(st, 1, name);
    CreateReturns(st, 1, name, TYPE_FILE, true, true);
    CreateInv(st, 1, name, TYPE_FILE, true, true);
    CreatedIsEmpty(st, 1, name, TYPE_FILE, true, true);
    CreateBitmaps(st, 1, name, TYPE_FILE, true, true);
    var st' := Create(st, 1, name, TYPE_FILE, true, true).0;
    InvSizes(st');
    assert !st'.used[st.reserved + 2];
  }

  /** A write that fits one block and can have it stores everything. */
  lemma WriteOnce(st: FsState, id: nat, x: u64, buf: seq<Byte>)
    requires Inv(st) && LiveFile(st, id) && x < 40960 && 0 < |buf| && x % 4096 + |buf| <= 4096
    requires Held(st, id, x / 4096) != 0 || BlockFree(st)
    ensures Shape(st) && Write(st, id, x, buf, true).1 == |buf|
    ensures WriteLoop(st, id, x, buf, 0) == (WriteStep(st, id, x / 4096, x % 4096, buf), |buf|)
  {
    hide Inv, WriteStep, WriteLoop, TreeOf, BlockFree, Chunk;
    InvShape(st);
    OneChunk(x, |buf|);
    WriteLoopUnfold(st, id, x, buf, 0);
    WriteLoopDone(WriteStep(st, id, x / 4096, x % 4096, buf), id, x, buf);
    assert buf[0..|buf|] == buf;
  }

  lemma OneChunk(x: nat, n: nat)
    requires x % 4096 + n <= 4096
    ensures Chunk(x, n) == n
  {
  }

  /** A byte written at x is gone after a write 2^44 bytes beyond it. */
  lemma LostByte(st: FsState, name: Text, x: u64, first: Byte, second: Byte)
    requires Formatted(st) && 3 <= |st.inodes| <= SLOTS && |st.used| >= st.reserved + 3
        && |name| <= MAX_NAME && x < 40960
    ensures var written := [CreateOp(1, name, TYPE_FILE, true, true)] + [WriteOp(2, x, [first], true)];
            var ops := written + [WriteOp(2, 0x1000_0000_0000 + x, [second], true)];
            && SoundRun(st, written) && LegalRun(st, written) && SoundRun(st, ops) && LegalRun(st, ops)
            && Read(Run(st, written), 2, x, 1, true) == Bytes([first])
            && Read(Run(st, ops), 2, x, 1, true) == Bytes([second])
  {
    hide Inv, Starved, Step, Read, SoundRun, LegalRun, Run, Formatted, FreshInode;
    FormattedShape(st);
    var op0, op1 := CreateOp(1, name, TYPE_FILE, true, true), WriteOp(2, x, [first], true);
    var op2 := WriteOp(2, 0x1000_0000_0000 + x, [second], true);
    FirstFile(st, name);
    var st1 := Step(st, op0).0;
    LostAfter(st1, x, first, second);
    SoundOne(Step(st1, op1).0, op2);
    SoundOne(st1, op1);
    SoundCons(st1, op1, [op2]);
    SoundCons(st, op0, [op1]);
    SoundCons(st, op0, [op1] + [op2]);
    assert [op0] + ([op1] + [op2]) == [op0] + [op1] + [op2];
  }

  lemma LostAfter(st: FsState, x: u64, first: Byte, second: Byte)
    requires Inv(st) && LiveFile(st, 2) && BlockFree(st) && x < 40960
    ensures var op1, op2 := WriteOp(2, x, [first], true), WriteOp(2, 0x1000_0000_0000 + x, [second], true);
            && Shape(st) && Sound(st, op1) && Sound(Step(st, op1).0, op2)
            && Read(Step(st, op1).0, 2, x, 1, true) == Bytes([first])
            && Read(Step(Step(st, op1).0, op2).0, 2, x, 1, true) == Bytes([second])
  {
    hide Inv, Write, Read, TreeOf, OnlyFile, BlockFree, WriteLoop, WriteStep;
    InvShape(st);
    WriteOnce(st, 2, x, [first]);
    OverwrittenFromAfar(st, 2, x, 1, first, second);
    WriteInv(st, 2, x, [first], true);
    StillLive(st, Write(st, 2, x, [first], true).0, 2);
  }

  lemma StillLive(st: FsState, st': FsState, id: nat)
    requires OnlyFile(st, st', id) && LiveFile(st, id)
    ensures LiveFile(st', id)
  {
    hide ByteAt;
  }

  /** The run of the next two cases: a file of ten bytes. */
  function TenBytes(name: Text, buf: seq<Byte>): seq<Op> {
    [CreateOp(1, name, TYPE_FILE, true, true)] + [WriteOp(2, 0, buf, true)]
  }

  /** Its block goes on behind the end of the file. */
  lemma AfterTenBytes(st: FsState, name: Text, buf: seq<Byte>)
    requires Formatted(st) && 3 <= |st.inodes| <= SLOTS && |st.used| >= st.reserved + 3
    requires |name| <= MAX_NAME && |buf| == 10
    ensures SoundRun(st, TenBytes(name, buf)) && LegalRun(st, TenBytes(name, buf))
    ensures var s := Run(st, TenBytes(name, buf));
            && LiveFile(s, 2) && Ino(s, 2).size == 10
            && forall lo: nat :: lo <= 4096 ==> NoHole(s, 2, lo, 4096) && !NoHole(s, 2, lo, 4097)
  {
    hide Inv, Create, Write, Starved, ByteAt, TreeOf, OnlyFile, WriteLoop, WriteStep, NoHole, SoundRun, LegalRun, Run;
    var op0, op1 := CreateOp(1, name, TYPE_FILE, true, true), WriteOp(2, 0, buf, true);
    FirstFile(st, name);
    var st1 := Step(st, op0).0;
    InvShape(st1);
    WriteOnce(st1, 2, 0, buf);
    var st2 := Step(st1, op1).0;
    WriteInv(st1, 2, 0, buf, true);
    WriteLands(st1, 2, 0, buf);
    StillLive(st1, st2, 2);
    OneBlock(st1, 2, buf);
    SoundOne(st1, op1);
    SoundCons(st, op0, [op1]);
  }

  lemma OneBlock(st: FsState, id: nat, buf: seq<Byte>)
    requires Inv(st) && LiveFile(st, id) && Ino(st, id) == FreshInode(id, TYPE_FILE, 0x1A4)
    requires BlockFree(st) && |buf| == 10
    ensures Shape(st)
    ensures var st' := Write(st, id, 0, buf, true).0;
            forall lo: nat :: lo <= 4096 ==> NoHole(st', id, lo, 4096) && !NoHole(st', id, lo, 4097)
  {
    hide Inv, WriteLoop, TreeOf, BlockAt;
    InvShape(st);
    WriteOnce(st, id, 0, buf);
    TurnTakesBlock(st, id, 0, buf);
    var st' := Write(st, id, 0, buf, true).0;
    assert Held(st', id, 0) != 0 && Held(st', id, 1) == 0;
    assert ByteAt(st', id, 4096) == Hole;
  }

  /** A read beyond the end of a ten-byte file: one byte is asked for, 3996 arrive. */
  lemma ReadOverruns(st: FsState, name: Text, buf: seq<Byte>)
    requires Formatted(st) && 3 <= |st.inodes| <= SLOTS && |st.used| >= st.reserved + 3
    requires |name| <= MAX_NAME && |buf| == 10
    ensures SoundRun(st, TenBytes(name, buf)) && LegalRun(st, TenBytes(name, buf))
    ensures var r := Read(Run(st, TenBytes(name, buf)), 2, 100, 1, true);
            r.Bytes? && |r.bytes| == 3996
  {
    hide SoundRun, LegalRun, Run, Read, NoHole, Formatted;
    FormattedShape(st);
    AfterTenBytes(st, name, buf);
    var s := Run(st, TenBytes(name, buf));
    ReadLands(s, 2, 100, 1);
    ReadLongerIff(s, 2, 100, 1, 3995);
    ReadLongerIff(s, 2, 100, 1, 3996);
  }

  /** A read within a ten-byte file whose count makes offset + count wrap: five bytes are
      left from offset 5 on, 4091 arrive. */
  lemma ReadRunsOn(st: FsState, name: Text, buf: seq<Byte>)
    requires Formatted(st) && 3 <= |st.inodes| <= SLOTS && |st.used| >= st.reserved + 3
    requires |name| <= MAX_NAME && |buf| == 10
    ensures SoundRun(st, TenBytes(name, buf)) && LegalRun(st, TenBytes(name, buf))
    ensures var s := Run(st, TenBytes(name, buf));
            var r := Read(s, 2, 5, U64_LIMIT - 1, true);
            Known(s, 2) && Ino(s, 2).size == 10 && r.Bytes? && |r.bytes| == 4091
  {
    hide SoundRun, LegalRun, Run, Read, NoHole, Formatted;
    FormattedShape(st);
    AfterTenBytes(st, name, buf);
    var s := Run(st, TenBytes(name, buf));
    ReadLands(s, 2, 5, U64_LIMIT - 1);
    ReadLongerIff(s, 2, 5, U64_LIMIT - 1, 4090);
    ReadLongerIff(s, 2, 5, U64_LIMIT - 1, 4091);
  }
}
