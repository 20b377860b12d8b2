/** The simple file system that the block-level one refines, and the refinement over
    whole runs. */
module FsRefine {
  import opened Bytes
  import opened FsLayout
  import opened FsTree
  import opened FsSpec
  import opened FsInv
  import opened FsNames
  import opened FsBytes
  import opened FsRun

  datatype Simple = Simple(
    total: nat,
    kinds: map<nat, u16>,
    names: map<(nat, Text), nat>,
    bytes: map<(nat, nat), Byte>)

  function Resolve(a: Simple, p: nat, name: Text): nat {
    if (p, name) in a.names then a.names[(p, name)] else 0
  }

  // ---------------------------------------------------------------- simple operations

  /** A new inode, entered under its name unless the directory had no room. */
  function SimpleCreate(a: Simple, p: nat, name: Text, kind: u16, id: nat, linked: bool): Simple {
    Simple(a.total, a.kinds[id := kind], if linked then a.names[(p, name) := id] else a.names, a.bytes)
  }

  function Unbind(a: Simple, p: nat, name: Text): Simple {
    Simple(a.total, a.kinds, a.names - {(p, name)}, a.bytes)
  }

  /** An inode disappears with everything recorded about it. */
  function Forget(a: Simple, id: nat): Simple {
    Simple(a.total, a.kinds - {id},
           map k: (nat, Text) | k in a.names && k.0 != id :: a.names[k],
           map k: (nat, nat) | k in a.bytes && k.0 != id :: a.bytes[k])
  }

  function SimpleWrite(a: Simple, id: nat, offset: nat, written: seq<Byte>): Simple {
    Simple(a.total, a.kinds, a.names, a.bytes + map o: nat | offset <= o < offset + |written| :: (id,
        o) := written[o - offset])
  }

  predicate HasKind(a: Simple, id: nat, kind: u16) { id in a.kinds && a.kinds[id] == kind }

  /** The least number from i to the total that is no inode, or 0. */
  function NewId(a: Simple, i: nat): nat
    decreases a.total + 1 - i
  {
    if i > a.total then 0 else if i !in a.kinds then i else NewId(a, i + 1)
  }

  predicate SimpleCreates(a: Simple, p: nat, name: Text, mem: bool, lookupMem: bool) {
    && |name| <= MAX_NAME && mem && HasKind(a, p, TYPE_DIR)
    && (lookupMem ==> Resolve(a, p, name) == 0)
    && NewId(a, 1) != 0
  }

  /** What the simple file system does not know: whether the disk had room for a new
      entry, and how many bytes of a write it could take. */
  datatype Space = Space(room: bool, stored: nat)

  /** The new state and the return value. */
  function SimpleStep(a: Simple, op: Op, space: Space): (Simple, int) {
    match op
    case CreateOp(p, name, kind, mem, lookupMem) =>
      if !SimpleCreates(a, p, name, mem, lookupMem) then (a, 0)
      else (SimpleCreate(a, p, name, kind, NewId(a, 1), space.room), NewId(a, 1) as int)
    case DeleteOp(p, name, mem, targetMem) =>
      if Resolve(a, p, name) == 0 || !mem then (a, -1)
      else (AfterDelete(a, p, name, Resolve(a, p, name), targetMem), if targetMem then 0 else -1)
    case WriteOp(id, offset, buf, mem) =>
      if !HasKind(a, id, TYPE_FILE) || !mem then (a, -1)
      else (SimpleWrite(a, id, Place(offset), buf[..Min(space.stored, |buf|)]), Min(space.stored, |buf|) as int)
  }

  /** The simple state after a delete that found its name. */
  function AfterDelete(a: Simple, p: nat, name: Text, target: nat, gone: bool): Simple {
    if gone then Forget(Unbind(a, p, name), target) else Unbind(a, p, name)
  }

  /** The simple file system on its own: the final state and what the calls return. */
  function SimpleRun(a: Simple, ops: seq<Op>, spaces: seq<Space>): (Simple, seq<int>)
    requires |spaces| == |ops|
    decreases |ops|
  {
    if ops == [] then (a, [])
    else
      var (a1, ret) := SimpleStep(a, ops[0], spaces[0]);
      var (a2, rets) := SimpleRun(a1, ops[1..], spaces[1..]);
      (a2, [ret] + rets)
  }

  // ---------------------------------------------------------------- representation

  ghost predicate SameKinds(st: FsState, a: Simple) {
    && a.total == |st.inodes|
    && (forall id: nat :: id in a.kinds <==> Live(st, id))
    && (forall id: nat :: Live(st, id) ==> a.kinds[id] == Ino(st, id).kind)
  }

  ghost predicate SameNames(st: FsState, a: Simple) {
    && (forall p: nat, n: Text :: (p, n) in a.names ==> LiveDir(st, p) && a.names[(p, n)] != 0)
    && (forall p: nat, n: Text :: LiveDir(st, p) ==> Lookup(st, p, n, true) == Resolve(a, p, n))
  }

  ghost predicate SameBytes(st: FsState, a: Simple) {
    forall id: nat, o: nat :: (id, o) in a.bytes ==>
      LiveFile(st, id) && o < Ino(st, id).size && ByteAt(st, id, o) == Cell(a.bytes[(id, o)])
  }

  ghost predicate Represents(st: FsState, a: Simple) {
    && Inv(st)
    && NamesUnique(st)
    && SameKinds(st, a)
    && SameNames(st, a)
    && SameBytes(st, a)
  }

  /** The conditions on a call under which the simple file system describes it: it is
      legal, and a create is not starved of memory for its own lookup. */
  predicate Sound(st: FsState, op: Op)
    requires Shape(st)
  {
    Legal(st, op) && (op.CreateOp? ==> !Starved(st, op.p, op.name, op.mem, op.lookupMem))
  }

  function SpaceOf(st: FsState, op: Op): Space
    requires Shape(st) && Legal(st, op)
  {
    Space(op.CreateOp? && Known(st, op.p) && HasRoom(st, op.p),
          if op.WriteOp? && Step(st, op).1 >= 0 then Step(st, op).1 else 0)
  }

  /** What the disk decides: a new entry finds room exactly when its directory has a spare
      entry or the disk a free block, and a write stops short only behind the last
      direct block or for want of a block. */
  ghost predicate SpaceRule(st: FsState, st': FsState, op: Op, ret: int, space: Space) {
    match op
    case CreateOp(p, _, _, _, _) =>
      ret > 0 && |st.inodes| <= SLOTS ==> Known(st, p) && (space.room <==> SpareSlot(st, p) || BlockFree(st))
    case DeleteOp(_, _, _, _) => true
    case WriteOp(id, offset, buf, _) =>
      ret >= 0 ==>
        var end := Place(offset) + space.stored;
        && space.stored <= |buf| && Known(st', id)
        && (space.stored < |buf| ==> end / 4096 >= NDIRECT || (Held(st', id, end / 4096) == 0 && !BlockFree(st')))
  }

  // ---------------------------------------------------------------- create

  lemma CreateLive(st: FsState, p: nat, name: Text, kind: u16, mem: bool, lookupMem: bool, y: nat)
    requires Inv(st) && MayName(st, p) && IsKind(kind) && Creates(st, p, name, mem, lookupMem)
    ensures var (st', id) := Create(st, p, name, kind, mem, lookupMem);
            && id != 0 && !Live(st, id)
            && (Live(st', y) <==> Live(st, y) || y == id)
            && (LiveDir(st', y) <==> LiveDir(st, y) || (y == id && kind == TYPE_DIR))
  {
    hide Inv, TreeOf, DirSlots, Create, HasRoom, Lookup, FreeSlot;
    InvShape(st);
    var (st', id) := Create(st, p, name, kind, mem, lookupMem);
    CreateTree(st, p, name, kind, mem, lookupMem);
    TreeHas(st, y);
    TreeHas(st', y);
    TreeHas(st, id);
  }

  /** A live inode's kind is what its being a directory or not says. */
  lemma KindOf(st: FsState, y: nat)
    requires Inv(st) && Live(st, y)
    ensures Ino(st, y).kind == if LiveDir(st, y) then TYPE_DIR else TYPE_FILE
  {
    hide Ownership, Directories, Forest, TreeOf;
  }

  lemma CreateKinds(st: FsState, a: Simple, p: nat, name: Text, kind: u16, mem: bool, lookupMem: bool)
    requires Inv(st) && SameKinds(st, a) && MayName(st, p) && IsKind(kind) && Creates(st, p, name, mem, lookupMem)
    ensures var (st', id) := Create(st, p, name, kind, mem, lookupMem);
            SameKinds(st', Simple(a.total, a.kinds[id := kind], a.names, a.bytes))
            && id != 0 && !Live(st, id)
            && (forall y: nat :: LiveDir(st', y) <==> LiveDir(st, y) || (y == id && kind == TYPE_DIR))
            && (forall y: nat :: Live(st', y) <==> Live(st, y) || y == id)
  {
    hide Inv, Create, Creates;
    InvShape(st);
    var (st', id) := Create(st, p, name, kind, mem, lookupMem);
    CreateInv(st, p, name, kind, mem, lookupMem);
    CreateLeaves(st, p, name, kind, mem, lookupMem);
    forall y: nat
      ensures Live(st', y) <==> Live(st, y) || y == id
      ensures LiveDir(st', y) <==> LiveDir(st, y) || (y == id && kind == TYPE_DIR)
      ensures Live(st', y) && y != id ==> Ino(st', y).kind == Ino(st, y).kind
      ensures y == id ==> Live(st', y) && Ino(st', y).kind == kind
    {
      CreateLive(st, p, name, kind, mem, lookupMem, y);
      if Live(st', y) {
        KindOf(st', y);
        if y != id {
          KindOf(st, y);
        }
      }
    }
    CreateLive(st, p, name, kind, mem, lookupMem, id);
  }

  lemma CreateNames(st: FsState, a: Simple, p: nat, name: Text, kind: u16, mem: bool, lookupMem: bool)
    requires Inv(st) && SameKinds(st, a) && SameNames(st, a) && MayName(st, p) && IsKind(kind)
    requires Creates(st, p, name, mem, lookupMem) && (Lookup(st, p, name, true) == 0 || !HasRoom(st, p))
    ensures var (st', id) := Create(st, p, name, kind, mem, lookupMem);
            SameNames(st', SimpleCreate(a, p, name, kind, id, HasRoom(st, p)))
  {
    hide Inv, TreeOf, DirSlots, Create, HasRoom, Lookup, SameKinds;
    InvShape(st);
    var (st', id) := Create(st, p, name, kind, mem, lookupMem);
    var a' := SimpleCreate(a, p, name, kind, id, HasRoom(st, p));
    CreateKinds(st, a, p, name, kind, mem, lookupMem);
    assert LiveDir(st, p);
    forall q: nat, n: Text | LiveDir(st', q) ensures Lookup(st', q, n, true) == Resolve(a', q, n) {
      CreateLooksUp(st, p, name, kind, mem, lookupMem, q, n);
      assert LiveDir(st, q) ==> Lookup(st, q, n, true) == Resolve(a, q, n);
      assert (id, n) !in a.names;
    }
  }

  lemma CreateLooksUp(st: FsState, p: nat, name: Text, kind: u16, mem: bool, lookupMem: bool, q: nat, n: Text)
    requires Inv(st) && MayName(st, p) && IsKind(kind)
    requires Creates(st, p, name, mem, lookupMem) && (Lookup(st, p, name, true) == 0 || !HasRoom(st, p))
    requires LiveDir(Create(st, p, name, kind, mem, lookupMem).0, q)
    ensures var (st', id) := Create(st, p, name, kind, mem, lookupMem);
            Lookup(st', q, n, true) ==
               if q == p && n == name && HasRoom(st, p) then id
               else if q == id then 0
               else Lookup(st, q, n, true)
  {
    if Lookup(st, p, name, true) == 0 {
      hide *;
      CreateInserts(st, p, name, kind, mem, lookupMem, q, n);
    } else {
      hide Inv, HasRoom, AddInode, InodeFree, DirSlots, Find;
      InvShape(st);
      AddInodeFrame(st, kind);
      RoomUnchanged(st, kind, p);
      NothingFound(n);
    }
  }

  lemma FilesKeepBytes(st: FsState, st': FsState, a: Simple, a': Simple)
    requires SameBytes(st, a) && KeepsFiles(st, st')
    requires a'.bytes.Keys <= a.bytes.Keys
    requires forall k :: k in a'.bytes ==> a'.bytes[k] == a.bytes[k] && Live(st', k.0)
    ensures SameBytes(st', a')
  {
    hide ByteAt;
    forall id: nat, o: nat | (id, o) in a'.bytes
      ensures LiveFile(st', id) && o < Ino(st', id).size && ByteAt(st', id, o) == Cell(a'.bytes[(id, o)])
    {
      assert (id, o) in a.bytes && LiveFile(st, id);
    }
  }

  lemma {:induction false} NewIdIs(st: FsState, a: Simple, i: nat)
    requires Shape(st) && SameKinds(st, a) && 1 <= i <= |st.live| + 1
    requires forall n: nat :: n < i - 1 ==> st.live[n]
    ensures NewId(a, i) == if InodeFree(st) then FirstClear(st.live) + 1 else 0
    decreases |st.live| + 1 - i
  {
    if i <= |st.live| {
      assert Live(st, i) <==> st.live[i - 1];
      if st.live[i - 1] {
        NewIdIs(st, a, i + 1);
      } else {
        FirstClearIs(st.live, i - 1);
      }
    } else {
      FirstClearIs(st.live, |st.live|);
    }
  }

  lemma HasKindIs(st: FsState, a: Simple, id: nat)
    requires Inv(st) && SameKinds(st, a) && MayName(st, id)
    ensures HasKind(a, id, TYPE_DIR) <==> LiveDir(st, id)
    ensures HasKind(a, id, TYPE_FILE) <==> LiveFile(st, id)
    ensures Known(st, id) && IsDir(Ino(st, id)) <==> LiveDir(st, id)
  {
    hide Inv;
    if Live(st, id) {
      KindOf(st, id);
    }
  }

  /** The simple file system knows whether a create is accepted and the inode it returns. */
  lemma CreatesAgrees(st: FsState, a: Simple, p: nat, name: Text, mem: bool, lookupMem: bool)
    requires Inv(st) && SameKinds(st, a) && SameNames(st, a) && MayName(st, p)
    ensures Shape(st) && (SimpleCreates(a, p, name, mem, lookupMem) <==> Creates(st, p, name, mem, lookupMem))
    ensures Creates(st, p, name, mem, lookupMem) ==> NewId(a, 1) == FirstClear(st.live) + 1
  {
    hide Inv, SameKinds, SameNames, Lookup, HasKind;
    InvShape(st);
    NewIdIs(st, a, 1);
    HasKindIs(st, a, p);
    LookupIsResolve(st, a, p, name);
    LookupNoMem(st, p, name);
  }

  lemma CreateRefines(st: FsState, a: Simple, p: u32, name: Text, kind: u16, mem: bool, lookupMem: bool)
    requires Represents(st, a) && MayName(st, p) && IsKind(kind) && !Starved(st, p, name, mem, lookupMem)
    ensures var (st', id) := Create(st, p, name, kind, mem, lookupMem);
            var op := CreateOp(p, name, kind, mem, lookupMem);
            var (a', ret) := SimpleStep(a, op, SpaceOf(st, op));
            Represents(st', a') && id == ret && SpaceRule(st, st', op, ret, SpaceOf(st, op))
  {
    hide Inv, NamesUnique, SameKinds, SameNames, SameBytes, Create, HasRoom, Lookup, Creates, SimpleCreates, SpareSlot;
    InvShape(st);
    var (st', id) := Create(st, p, name, kind, mem, lookupMem);
    CreatesAgrees(st, a, p, name, mem, lookupMem);
    if Creates(st, p, name, mem, lookupMem) {
      CreateReturns(st, p, name, kind, mem, lookupMem);
      CreateInv(st, p, name, kind, mem, lookupMem);
      CreateUniqueIff(st, p, name, kind, mem, lookupMem);
      CreateKinds(st, a, p, name, kind, mem, lookupMem);
      NotStarved(st, p, name, mem, lookupMem);
      CreateNames(st, a, p, name, kind, mem, lookupMem);
      CreateFiles(st, p, name, kind, mem, lookupMem);
      var a' := SimpleCreate(a, p, name, kind, id, HasRoom(st, p));
      KindsOnly(st', Simple(a.total, a.kinds[id := kind], a.names, a.bytes), a');
      BytesAreLive(st, a);
      KindsKnown(st, st', a, a');
      FilesKeepBytes(st, st', a, a');
      if |st.inodes| <= SLOTS {
        RoomIff(st, p);
      }
    } else {
      CreateRefusedUnchanged(st, p, name, kind, mem, lookupMem);
    }
  }

  lemma NotStarved(st: FsState, p: nat, name: Text, mem: bool, lookupMem: bool)
    requires Shape(st) && Creates(st, p, name, mem, lookupMem) && !Starved(st, p, name, mem, lookupMem)
    ensures Known(st, p) && (Lookup(st, p, name, true) == 0 || !HasRoom(st, p))
  {
    hide HasRoom, Lookup, InodeFree;
  }

  lemma CreateReturns(st: FsState, p: nat, name: Text, kind: u16, mem: bool, lookupMem: bool)
    requires Shape(st) && Creates(st, p, name, mem, lookupMem)
    ensures Known(st, p) && IsDir(Ino(st, p))
    ensures Create(st, p, name, kind, mem, lookupMem).1 == FirstClear(st.live) + 1
  {
    hide HasRoom, Link, AddInode, Lookup, InodeFree;
  }

  lemma KindsKnown(st: FsState, st': FsState, a: Simple, a': Simple)
    requires SameKinds(st, a) && SameKinds(st', a') && a.kinds.Keys <= a'.kinds.Keys
    ensures forall id: nat :: Live(st, id) ==> Live(st', id)
  {
  }

  lemma CreateRefusedUnchanged(st: FsState, p: nat, name: Text, kind: u16, mem: bool, lookupMem: bool)
    requires Shape(st) && !Creates(st, p, name, mem, lookupMem)
    ensures Create(st, p, name, kind, mem, lookupMem) == (st, 0)
  {
  }

  lemma KindsOnly(st: FsState, a: Simple, a': Simple)
    requires SameKinds(st, a) && a'.kinds == a.kinds && a'.total == a.total
    ensures SameKinds(st, a')
  {
  }

  lemma BytesAreLive(st: FsState, a: Simple)
    requires SameBytes(st, a)
    ensures forall k :: k in a.bytes ==> LiveFile(st, k.0)
  {
    hide ByteAt;
    forall k | k in a.bytes ensures LiveFile(st, k.0) {
      assert (k.0, k.1) == k;
    }
  }

  // ---------------------------------------------------------------- delete

  lemma DeleteKeepsKinds(st: FsState, p: nat, name: Text, mem: bool, targetMem: bool)
    requires Shape(st)
    ensures var st' := Delete(st, p, name, mem, targetMem).0;
            |st'.inodes| == |st.inodes| && forall y: nat :: Known(st, y) ==> Ino(st', y).kind == Ino(st, y).kind
  {
    hide DirSlots, EntryIn, PutEntryIn, FirstMatch;
  }

  lemma DeleteKinds(st: FsState, a: Simple, p: nat, name: Text, targetMem: bool, root: nat, n: Text)
    requires Inv(st) && NamesUnique(st) && SameKinds(st, a) && MayName(st, p)
    requires Lookup(st, p, name, true) != 0
    requires LiveDir(Delete(st, p, name, true, targetMem).0, root)
    ensures var (st', ret) := Delete(st, p, name, true, targetMem);
            SameKinds(st', AfterDelete(a, p, name, Lookup(st, p, name, true), ret == 0))
  {
    hide Inv, NamesUnique, Delete, Lookup;
    InvShape(st);
    DeleteKeepsKinds(st, p, name, true, targetMem);
    DeleteRemoves(st, p, name, true, targetMem, root, n);
  }

  lemma DeleteNames(st: FsState, a: Simple, p: nat, name: Text, targetMem: bool, root: nat)
    requires Inv(st) && NamesUnique(st) && SameNames(st, a) && MayName(st, p)
    requires Lookup(st, p, name, true) != 0
    requires LiveDir(Delete(st, p, name, true, targetMem).0, root)
    ensures var (st', ret) := Delete(st, p, name, true, targetMem);
            SameNames(st', AfterDelete(a, p, name, Lookup(st, p, name, true), ret == 0))
  {
    hide Inv, NamesUnique, Delete, Lookup;
    InvShape(st);
    var (st', ret) := Delete(st, p, name, true, targetMem);
    var target := Lookup(st, p, name, true);
    var a' := AfterDelete(a, p, name, target, ret == 0);
    DeleteKeepsKinds(st, p, name, true, targetMem);
    DeleteRemoves(st, p, name, true, targetMem, root, name);
    forall q: nat, n: Text | LiveDir(st', q) ensures Lookup(st', q, n, true) == Resolve(a', q, n) {
      DeleteRemoves(st, p, name, true, targetMem, q, n);
      assert Lookup(st, q, n, true) == Resolve(a, q, n);
    }
  }

  lemma DeleteBytes(st: FsState, a: Simple, p: nat, name: Text, targetMem: bool, root: nat)
    requires Inv(st) && NamesUnique(st) && SameBytes(st, a) && MayName(st, p)
    requires Lookup(st, p, name, true) != 0
    requires LiveDir(Delete(st, p, name, true, targetMem).0, root)
    ensures var (st', ret) := Delete(st, p, name, true, targetMem);
            SameBytes(st', AfterDelete(a, p, name, Lookup(st, p, name, true), ret == 0))
  {
    hide Inv, NamesUnique, Delete, Lookup, ByteAt, KeepsFiles, SameBytes;
    InvShape(st);
    DeleteRemoves(st, p, name, true, targetMem, root, name);
    DeleteFiles(st, p, name, true, targetMem);
    BytesAreLive(st, a);
    var (st', ret) := Delete(st, p, name, true, targetMem);
    FilesKeepBytes(st, st', a, AfterDelete(a, p, name, Lookup(st, p, name, true), ret == 0));
  }

  lemma RootStays(st: FsState)
    requires Inv(st)
    ensures LiveDir(st, st.root)
  {
    hide Ownership, Directories, Forest, TreeOf;
  }

  lemma DeleteNothing(st: FsState, p: nat, name: Text, mem: bool, targetMem: bool)
    requires Shape(st) && Lookup(st, p, name, mem) == 0
    ensures Delete(st, p, name, mem, targetMem) == (st, -1)
  {
  }

  lemma LookupIsResolve(st: FsState, a: Simple, p: nat, name: Text)
    requires SameNames(st, a) && MayName(st, p)
    ensures Lookup(st, p, name, true) == Resolve(a, p, name)
  {
    hide Lookup;
    LookupNoMem(st, p, name);
  }

  lemma DeleteRefines(st: FsState, a: Simple, p: u32, name: Text, mem: bool, targetMem: bool)
    requires Represents(st, a) && MayName(st, p)
    ensures var (st', ret) := Delete(st, p, name, mem, targetMem);
            forall space :: (var (a', ret') := SimpleStep(a, DeleteOp(p, name, mem, targetMem), space);
                             Represents(st', a') && ret == ret')
  {
    hide Inv, NamesUnique, SameKinds, SameNames, SameBytes, Delete, Lookup;
    InvShape(st);
    LookupIsResolve(st, a, p, name);
    LookupNoMem(st, p, name);
    var (st', ret) := Delete(st, p, name, mem, targetMem);
    if Resolve(a, p, name) == 0 || !mem {
      DeleteNothing(st, p, name, mem, targetMem);
    } else {
      DeleteInv(st, p, name, mem, targetMem);
      RootStays(st');
      DeleteRemoves(st, p, name, mem, targetMem, st'.root, name);
      DeleteKinds(st, a, p, name, targetMem, st'.root, name);
      DeleteNames(st, a, p, name, targetMem, st'.root);
      DeleteBytes(st, a, p, name, targetMem, st'.root);
    }
  }

  // ---------------------------------------------------------------- write

  lemma WriteLookups(st: FsState, st': FsState, p: nat, n: Text)
    requires Shape(st) && Shape(st') && TreeOf(st') == TreeOf(st) && LiveDir(st, p)
    ensures LiveDir(st', p) && Lookup(st', p, n, true) == Lookup(st, p, n, true)
  {
    hide TreeOf, DirSlots, Find;
    TreeHas(st, p);
    TreeHas(st', p);
  }

  lemma WriteNames(st: FsState, st': FsState, a: Simple, a': Simple)
    requires Shape(st) && Shape(st') && TreeOf(st') == TreeOf(st) && SameNames(st, a) && a'.names == a.names
    ensures SameNames(st', a')
  {
    hide TreeOf, Lookup;
    forall p: nat, n: Text | (p, n) in a'.names ensures LiveDir(st', p) {
      WriteLookups(st, st', p, n);
    }
    forall p: nat, n: Text | LiveDir(st', p) ensures Lookup(st', p, n, true) == Resolve(a', p, n) {
      WriteLookups(st', st, p, n);
      assert Resolve(a', p, n) == Resolve(a, p, n);
    }
  }

  lemma WriteKinds(st: FsState, st': FsState, a: Simple, a': Simple, id: nat)
    requires OnlyFile(st, st', id) && SameKinds(st, a) && a'.kinds == a.kinds && a'.total == a.total
    ensures SameKinds(st', a')
  {
    hide ByteAt;
    assert forall y: nat :: Live(st', y) == Live(st, y);
  }

  lemma WriteBytesRefine(st: FsState, st': FsState, a: Simple, id: nat, offset: nat, buf: seq<Byte>, n: nat)
    requires OnlyFile(st, st', id) && SameBytes(st, a) && LiveFile(st, id) && n <= |buf|
    requires Stored(st', id, offset, buf, 0, n) && KeepsOutside(st, st', id, offset, offset + n)
    requires Ino(st', id).size >= Ino(st, id).size && Ino(st', id).size >= offset + n
    ensures SameBytes(st', SimpleWrite(a, id, offset, buf[..n]))
  {
    hide ByteAt;
    var a' := SimpleWrite(a, id, offset, buf[..n]);
    assert forall y: nat :: Live(st', y) == Live(st, y);
    forall y: nat, o: nat | (y, o) in a'.bytes
      ensures LiveFile(st', y) && o < Ino(st', y).size && ByteAt(st', y, o) == Cell(a'.bytes[(y, o)])
    {
      if y == id && offset <= o < offset + n {
        assert a'.bytes[(y, o)] == buf[o - offset];
      } else {
        assert (y, o) in a.bytes && a'.bytes[(y, o)] == a.bytes[(y, o)];
        assert ByteAt(st, y, o).Cell?;
      }
    }
  }

  lemma WriteRefines(st: FsState, a: Simple, id: u32, offset: u64, buf: seq<Byte>, mem: bool)
    requires Represents(st, a) && MayName(st, id) && |buf| < U64_LIMIT
    ensures var (st', ret) := Write(st, id, offset, buf, mem);
            var op := WriteOp(id, offset, buf, mem);
            var (a', ret') := SimpleStep(a, op, SpaceOf(st, op));
            Represents(st', a') && ret == ret' && SpaceRule(st, st', op, ret, SpaceOf(st, op))
  {
    hide Inv, TreeOf, UniqueTree, SameKinds, SameNames, SameBytes, Write, ByteAt, OnlyFile, HasKind, Place,
         KeepsOutside, Stored;
    InvShape(st);
    HasKindIs(st, a, id);
    var (st', ret) := Write(st, id, offset, buf, mem);
    if LiveFile(st, id) && mem {
      WriteInv(st, id, offset, buf, mem);
      WriteLands(st, id, offset, buf);
      InvShape(st');
      var a' := SimpleWrite(a, id, Place(offset), buf[..ret]);
      WriteNames(st, st', a, a');
      WriteKinds(st, st', a, a', id);
      PlaceBelow(offset);
      WriteBytesRefine(st, st', a, id, Place(offset), buf, ret);
    } else {
      WriteRefused(st, id, offset, buf, mem);
    }
  }

  lemma PlaceBelow(offset: nat)
    ensures Place(offset) <= offset
  {
  }

  lemma WriteRefused(st: FsState, id: nat, offset: u64, buf: seq<Byte>, mem: bool)
    requires Shape(st) && MayName(st, id) && |buf| < U64_LIMIT && !(LiveFile(st, id) && mem)
    ensures Write(st, id, offset, buf, mem) == (st, -1)
  {
  }

  // ---------------------------------------------------------------- runs

  predicate SoundRun(st: FsState, ops: seq<Op>)
    requires Shape(st)
    decreases |ops|
  {
    ops == [] || (Sound(st, ops[0]) && SoundRun(Step(st, ops[0]).0, ops[1..]))
  }

  lemma {:induction false} SoundIsLegal(st: FsState, ops: seq<Op>)
    requires Shape(st) && SoundRun(st, ops)
    ensures LegalRun(st, ops)
    decreases |ops|
  {
    hide Step, Starved;
    if ops != [] {
      SoundIsLegal(Step(st, ops[0]).0, ops[1..]);
    }
  }

  function Spaces(st: FsState, ops: seq<Op>): (r: seq<Space>)
    requires Shape(st) && LegalRun(st, ops)
    ensures |r| == |ops|
    decreases |ops|
  {
    if ops == [] then [] else [SpaceOf(st, ops[0])] + Spaces(Step(st, ops[0]).0, ops[1..])
  }

  /** Every call does to the disk what it does to the simple file system and returns what
      the simple one returns; only space is decided by the disk. */
  lemma StepRefines(st: FsState, a: Simple, op: Op)
    requires Represents(st, a) && Sound(st, op)
    ensures var (st', ret) := Step(st, op);
            var (a', ret') := SimpleStep(a, op, SpaceOf(st, op));
            Represents(st', a') && ret == ret' && SpaceRule(st, st', op, ret, SpaceOf(st, op))
  {
    hide Represents, Create, Delete, Write, HasRoom, Starved, SimpleStep, SpaceOf;
    RepresentsShape(st, a);
    match op
    case CreateOp(p, name, kind, mem, lookupMem) => CreateRefines(st, a, p, name, kind, mem, lookupMem);
    case DeleteOp(p, name, mem, targetMem) => DeleteRefines(st, a, p, name, mem, targetMem);
    case WriteOp(id, offset, buf, mem) => WriteRefines(st, a, id, offset, buf, mem);
  }

  lemma RepresentsShape(st: FsState, a: Simple)
    requires Represents(st, a)
    ensures Shape(st) && Inv(st)
  {
    hide Inv, NamesUnique, SameKinds, SameNames, SameBytes;
    InvShape(st);
  }

  /** Over every run the block-level file system represents the simple one, and its calls
      return what those of the simple one return. */
  lemma {:induction false} RunRefines(st: FsState, a: Simple, ops: seq<Op>)
    requires Represents(st, a) && SoundRun(st, ops)
    ensures LegalRun(st, ops)
    ensures var (a', rets) := SimpleRun(a, ops, Spaces(st, ops));
            Represents(Run(st, ops), a') && Returns(st, ops) == rets
    decreases |ops|
  {
    hide Represents, Step, SimpleStep, SpaceOf, SpaceRule, Starved;
    RepresentsShape(st, a);
    SoundIsLegal(st, ops);
    if ops != [] {
      StepRefines(st, a, ops[0]);
      var st1, a1 := Step(st, ops[0]).0, SimpleStep(a, ops[0], SpaceOf(st, ops[0])).0;
      RunRefines(st1, a1, ops[1..]);
      assert Spaces(st, ops)[1..] == Spaces(st1, ops[1..]);
    }
  }

  function Blank(total: nat): Simple {
    Simple(total, map[1 := TYPE_DIR], map[], map[])
  }

  lemma FormattedRepresents(st: FsState)
    requires Formatted(st)
    ensures Represents(st, Blank(|st.inodes|))
  {
    FormattedInv(st);
    hide Inv, NamesUnique, SlotsOf;
    FreshSlots(st);
    assert forall id: nat :: Live(st, id) <==> id == 1;
    forall n: Text ensures Lookup(st, 1, n, true) == 0 {
      NothingFound(n);
    }
  }

  /** From a formatted disk, after any run: the calls returned what the simple file system
      returns, every lookup answers as the name map does, and every read agrees with the
      byte map. */
  lemma RunAnswers(st: FsState, ops: seq<Op>, p: nat, name: Text, id: nat, offset: u64, count: u64)
    requires Formatted(st) && SoundRun(st, ops)
    ensures LegalRun(st, ops)
    ensures var s := Run(st, ops);
            var (a, rets) := SimpleRun(Blank(|st.inodes|), ops, Spaces(st, ops));
            && Returns(st, ops) == rets
            && (MayName(s, p) ==> Lookup(s, p, name, true) == Resolve(a, p, name))
            && (LiveFile(s, id) ==> ReadAgrees(s, a, id, offset, count))
  {
    hide Represents, SoundRun, LegalRun, Run, SimpleRun, Formatted, Lookup, ReadAgrees, Returns, Spaces;
    assert Shape(st) by { FormattedShape(st); }
    FormattedRepresents(st);
    RunRefines(st, Blank(|st.inodes|), ops);
    var s, a := Run(st, ops), SimpleRun(Blank(|st.inodes|), ops, Spaces(st, ops)).0;
    Answers(s, a, p, name, id, offset, count);
  }

  lemma FormattedShape(st: FsState)
    requires Formatted(st)
    ensures Shape(st)
  {
  }

  /** The n bytes from an offset on have all been written. */
  ghost predicate Written(a: Simple, id: nat, at: nat, n: nat) {
    forall o: nat :: at <= o < at + n ==> (id, o) in a.bytes
  }

  /** A read delivers the written byte wherever one was written, not more than asked for
      when it starts within the file, and at least the prefix of its range that was
      written: it stops short only at a byte that was not. */
  ghost predicate ReadAgrees(st: FsState, a: Simple, id: nat, offset: u64, count: u64)
    requires Known(st, id)
  {
    var r, at := Read(st, id, offset, count, true), Place(offset);
    && r.Bytes?
    && (offset <= Ino(st, id).size ==> |r.bytes| <= count)
    && (forall x: nat :: x < |r.bytes| && (id, at + x) in a.bytes ==> r.bytes[x] == a.bytes[(id, at + x)])
    && (forall m: nat :: m <= count && (offset < REACH || offset + m <= Ino(st, id).size) && Written(a, id, at, m)
          ==> |r.bytes| >= m)
  }

  lemma Answers(st: FsState, a: Simple, p: nat, name: Text, id: nat, offset: u64, count: u64)
    requires Represents(st, a)
    ensures MayName(st, p) ==> Lookup(st, p, name, true) == Resolve(a, p, name)
    ensures LiveFile(st, id) ==> ReadAgrees(st, a, id, offset, count)
  {
    hide Inv, NamesUnique, SameKinds, SameNames, Lookup, ByteAt, Read, Clamp;
    if MayName(st, p) {
      LookupIsResolve(st, a, p, name);
    }
    if LiveFile(st, id) {
      ReadLands(st, id, offset, count);
      ClampIs(Ino(st, id).size, offset, count);
      var r, at := Read(st, id, offset, count, true).bytes, Place(offset);
      forall m: nat | m <= count && (offset < REACH || offset + m <= Ino(st, id).size) && Written(a, id, at, m)
        ensures |r| >= m
      {
        forall o: nat | at <= o < at + m ensures o < Ino(st, id).size && ByteAt(st, id, o).Cell? {
          assert (id, o) in a.bytes;
        }
        assert m > 0 ==> ByteAt(st, id, at + (m - 1)).Cell?;
      }
    }
  }
}
