/** Where the file system's memory comes from: every operation copies an inode record into
    a kmalloc block and frees it before it returns. A file system call on a heap fixes the
    flags of the value-level operation and leaves the live allocations as they were. */
module FsHeap {
  import opened Bytes
  import opened FsLayout
  import opened FsSpec
  import opened FsInv
  import opened FsNames
  import opened FsBytes
  import opened FsRun
  import opened Wrappers
  import Heap

  /** The heap after a record has been copied and freed again, and whether it could be. */
  function CopyAround(at: nat, h: Heap.HeapState): (Heap.HeapState, bool) {
    var (h1, q) := Heap.AllocAt(at, h, INODE_SIZE);
    (Heap.ReleaseAt(at, h1, q), q != 0)
  }

  /** A call as its caller makes it. */
  datatype FsCall =
    | CreateCall(p: u32, name: Text, kind: u16)
    | DeleteCall(p: u32, name: Text)
    | WriteCall(id: u32, offset: u64, buf: seq<Byte>)

  /** The copies that a call makes: the heap it leaves and the operation with its flags.
      Names that are too long and ids out of range are refused before any copy; create
      looks the name up while it holds the copy of the directory's record. */
  function Copies(at: nat, h: Heap.HeapState, st: FsState, call: FsCall): (Heap.HeapState, Op) {
    match call
    case CreateCall(p, name, kind) =>
      if |name| > MAX_NAME || !Known(st, p) then (h, CreateOp(p, name, kind, true, true))
      else
        var (h1, q) := Heap.AllocAt(at, h, INODE_SIZE);
        if q == 0 || !IsDir(Ino(st, p)) then (Heap.ReleaseAt(at, h1, q), CreateOp(p, name, kind, q != 0, true))
        else
          var (h2, lookupMem) := CopyAround(at, h1);
          (Heap.ReleaseAt(at, h2, q), CreateOp(p, name, kind, true, lookupMem))
    case DeleteCall(p, name) =>
      if |name| > MAX_NAME || !Known(st, p) then (h, DeleteOp(p, name, true, true))
      else
        var (h1, mem) := CopyAround(at, h);
        if !DeleteFinds(st, p, name, mem) || !Known(st, Lookup(st, p, name, true))
            then (h1, DeleteOp(p, name, mem, true))
        else
          var (h2, targetMem) := CopyAround(at, h1);
          (h2, DeleteOp(p, name, mem, targetMem))
    case WriteCall(id, offset, buf) =>
      if !Known(st, id) then (h, WriteOp(id, offset, buf, true))
      else
        var (h1, mem) := CopyAround(at, h);
        (h1, WriteOp(id, offset, buf, mem))
  }

  lemma CopyAroundNeutral(at: nat, h: Heap.HeapState, heapSize: nat)
    requires Heap.HeapInv(at, h, heapSize)
    ensures Heap.HeapInv(at, CopyAround(at, h).0, heapSize)
    ensures CopyAround(at, h).0.requests == h.requests
  {
    hide Heap.HeapInv, Heap.AllocAt, Heap.ReleaseAt;
    Heap.AllocFacts(at, h, INODE_SIZE, heapSize);
    var (h1, q) := Heap.AllocAt(at, h, INODE_SIZE);
    if q != 0 {
      Heap.ReleaseFacts(at, h1, q, heapSize);
    } else {
      Heap.ReleaseNull(at, h1);
    }
  }

  /** A block of at least 88 bytes is free. */
  ghost predicate RecordFits(h: Heap.HeapState) {
    exists j :: 0 <= j < |h.blocks| && h.blocks[j].free && h.blocks[j].size >= 88
  }

  lemma AllocatesIff(at: nat, h: Heap.HeapState)
    ensures Heap.AllocAt(at, h, 88).1 != 0 <==> RecordFits(h)
  {
    hide Heap.Malloc, Heap.Span;
    Heap.MallocFailsIff(h.blocks, 88);
  }

  /** A call has memory exactly when the heap has a free block of 88 bytes at the time of its
      copy: for the record of its directory or file, and for create's lookup in the heap
      that the first copy leaves. */
  lemma FlagsIff(at: nat, h: Heap.HeapState, st: FsState, call: FsCall)
    ensures var op := Copies(at, h, st, call).1;
            && (call.CreateCall? ==> op.CreateOp? && op.p == call.p && op.name == call.name && op.kind == call.kind)
            && (call.DeleteCall? ==> op.DeleteOp? && op.p == call.p && op.name == call.name)
            && (call.WriteCall? ==> op.WriteOp? && op.id == call.id && op.offset == call.offset && op.buf == call.buf)
            && (!call.WriteCall? && |call.name| <= MAX_NAME && Known(st, call.p) ==> (op.mem <==> RecordFits(h)))
            && (call.WriteCall? && Known(st, call.id) ==> (op.mem <==> RecordFits(h)))
            && (call.CreateCall? && |call.name| <= MAX_NAME && LiveDir(st, call.p) && op.mem ==>
                  (op.lookupMem <==> RecordFits(Heap.AllocAt(at, h, 88).0)))
  {
    hide RecordFits, Heap.AllocAt, Heap.ReleaseAt, DeleteFinds, Lookup;
    AllocatesIff(at, h);
    AllocatesIff(at, Heap.AllocAt(at, h, 88).0);
  }

  /** No file system call changes the set of live allocations. */
  lemma CallNeutral(at: nat, h: Heap.HeapState, st: FsState, call: FsCall, heapSize: nat)
    requires Heap.HeapInv(at, h, heapSize)
    ensures Heap.HeapInv(at, Copies(at, h, st, call).0, heapSize)
    ensures Copies(at, h, st, call).0.requests == h.requests
  {
    hide Heap.HeapInv, Heap.AllocAt, Heap.ReleaseAt, CopyAround, DeleteFinds, Lookup;
    CopyAroundNeutral(at, h, heapSize);
    match call
    case CreateCall(p, name, kind) =>
      Heap.AllocFacts(at, h, INODE_SIZE, heapSize);
      var (h1, q) := Heap.AllocAt(at, h, INODE_SIZE);
      Heap.ReleaseNull(at, h1);
      if q != 0 {
        Heap.ReleaseFacts(at, h1, q, heapSize);
        CopyAroundNeutral(at, h1, heapSize);
        Heap.ReleaseFacts(at, CopyAround(at, h1).0, q, heapSize);
      }
    case DeleteCall(p, name) => CopyAroundNeutral(at, CopyAround(at, h).0, heapSize);
    case WriteCall(_, _, _) =>
  }

  // ---------------------------------------------------------------- file system and heap together

  datatype World = World(heap: Heap.HeapState, fs: FsState)

  /** A file system call, or the rest of the kernel allocating and freeing. */
  datatype Act = Fs(call: FsCall) | Other(c: Heap.Call)

  predicate LegalAct(at: nat, w: World, a: Act) {
    match a
    case Fs(call) => Legal(w.fs, Copies(at, w.heap, w.fs, call).1)
    case Other(c) => Heap.LegalCall(at, w.heap, c)
  }

  function Perform(at: nat, w: World, a: Act): (r: World)
    requires Shape(w.fs) && LegalAct(at, w, a)
    ensures Shape(r.fs)
  {
    match a
    case Fs(call) =>
      var (h, op) := Copies(at, w.heap, w.fs, call);
      World(h, Step(w.fs, op).0)
    case Other(c) => World(Heap.Do(at, w.heap, c), w.fs)
  }

  predicate LegalActs(at: nat, w: World, acts: seq<Act>)
    requires Shape(w.fs)
    decreases |acts|
  {
    acts == [] || (LegalAct(at, w, acts[0]) && LegalActs(at, Perform(at, w, acts[0]), acts[1..]))
  }

  function PerformAll(at: nat, w: World, acts: seq<Act>): (r: World)
    requires Shape(w.fs) && LegalActs(at, w, acts)
    ensures Shape(r.fs)
    decreases |acts|
  {
    if acts == [] then w else PerformAll(at, Perform(at, w, acts[0]), acts[1..])
  }

  lemma PerformInv(at: nat, w: World, a: Act, heapSize: nat)
    requires Heap.HeapInv(at, w.heap, heapSize) && Inv(w.fs) && Shape(w.fs) && LegalAct(at, w, a)
    ensures Heap.HeapInv(at, Perform(at, w, a).heap, heapSize) && Inv(Perform(at, w, a).fs)
    ensures a.Fs? ==> Perform(at, w, a).heap.requests == w.heap.requests
  {
    hide Heap.HeapInv, Inv, Copies, Step, Heap.Do;
    match a
    case Fs(call) =>
      CallNeutral(at, w.heap, w.fs, call, heapSize);
      StepInv(w.fs, Copies(at, w.heap, w.fs, call).1);
    case Other(c) => Heap.DoInv(at, w.heap, c, heapSize);
  }

  /** Over every run of file system calls and other allocations, with memory as the heap
      has it, both invariants hold. */
  lemma {:induction false} PerformAllInv(at: nat, w: World, acts: seq<Act>, heapSize: nat)
    requires Heap.HeapInv(at, w.heap, heapSize) && Inv(w.fs) && Shape(w.fs) && LegalActs(at, w, acts)
    ensures Heap.HeapInv(at, PerformAll(at, w, acts).heap, heapSize) && Inv(PerformAll(at, w, acts).fs)
    decreases |acts|
  {
    hide Heap.HeapInv, Inv, Perform, LegalAct;
    if acts != [] {
      PerformInv(at, w, acts[0], heapSize);
      PerformAllInv(at, Perform(at, w, acts[0]), acts[1..], heapSize);
    }
  }

  lemma PerformCons(at: nat, w: World, a: Act, acts: seq<Act>)
    requires Shape(w.fs) && LegalAct(at, w, a) && LegalActs(at, Perform(at, w, a), acts)
    ensures LegalActs(at, w, [a] + acts) && PerformAll(at, w, [a] + acts) == PerformAll(at, Perform(at, w, a), acts)
  {
    hide Perform, LegalAct;
    assert ([a] + acts)[1..] == acts;
  }

  // ---------------------------------------------------------------- a starved lookup

  /** A heap with room for two records, and with one of them in use. */
  const TWO := [Heap.Blk(200, true)]
  const ONE := [Heap.Blk(88, false), Heap.Blk(88, true)]
  const NONE := [Heap.Blk(88, false), Heap.Blk(88, false)]

  lemma MallocsOf()
    ensures Heap.Malloc(TWO, 88) == (ONE, Some(0)) && Heap.Malloc(ONE, 88) == (NONE, Some(1))
  {
    hide Heap.Malloc;
    Heap.MallocOf(TWO, 88, 0);
    assert TWO[..0] + Heap.Carve(TWO[0], 88) + TWO[1..] == ONE;
    Heap.MallocOf(ONE, 88, 1);
    assert ONE[..1] + Heap.Carve(ONE[1], 88) + ONE[2..] == NONE;
  }

  lemma AllocFromTwo(at: nat, h: Heap.HeapState)
    requires h.blocks == TWO
    ensures var (h', q) := Heap.AllocAt(at, h, 88);
            h'.blocks == ONE && q == at + 24
  {
    hide Heap.Malloc, Heap.Span;
    MallocsOf();
    Heap.SpanOne(TWO);
  }

  lemma AllocFromOne(at: nat, h: Heap.HeapState)
    requires h.blocks == ONE
    ensures var (h', q) := Heap.AllocAt(at, h, 88);
            h'.blocks == NONE && q == at + 136
  {
    hide Heap.Malloc, Heap.Span;
    MallocsOf();
    Heap.SpanOne(ONE);
  }

  lemma AllocFromNone(at: nat, h: Heap.HeapState)
    requires h.blocks == NONE
    ensures Heap.AllocAt(at, h, 88) == (h, 0)
  {
    Heap.MallocFailsIff(NONE, 88);
  }

  lemma ReleaseTo(at: nat, h: Heap.HeapState, k: nat)
    requires Heap.Good(h.blocks, 224) && k < |h.blocks| && !h.blocks[k].free
    ensures Heap.ReleaseAt(at, h, at + Heap.Span(h.blocks[..k]) + 24).blocks == Heap.Free(h.blocks, k)
  {
    hide Heap.Span, Heap.Free;
    Heap.ReleaseIs(at, h, k, 224);
    Heap.FreeGood(at, h.blocks, k, 224);
  }

  lemma TwoRecords()
    ensures Heap.Good(ONE, 224) && Heap.Good(NONE, 224)
    ensures Heap.Free(NONE, 1) == ONE && Heap.Free(ONE, 0) == TWO
    ensures Heap.Span(ONE[..0]) == 0 && Heap.Span(NONE[..1]) == 112
  {
    assert ONE[1..] == [Heap.Blk(88, true)] && NONE[1..] == [Heap.Blk(88, false)];
    Heap.One(0, Heap.Blk(88, true));
    Heap.One(0, Heap.Blk(88, false));
    assert NONE[1 := Heap.Blk(88, true)] == ONE;
    var both := [Heap.Blk(88, true), Heap.Blk(88, true)];
    assert ONE[0 := Heap.Blk(88, true)] == both;
    assert both[2..] == [];
    Heap.SpanOne(ONE);
    Heap.SpanOne(NONE);
  }

  lemma CopyWithOne(at: nat, h: Heap.HeapState)
    requires h.blocks == ONE
    ensures CopyAround(at, h).0.blocks == ONE && CopyAround(at, h).1
  {
    hide Heap.AllocAt, Heap.ReleaseAt, Heap.Good, Heap.Free, Heap.Span;
    TwoRecords();
    AllocFromOne(at, h);
    ReleaseTo(at, Heap.AllocAt(at, h, 88).0, 1);
  }

  lemma CopyWithNone(at: nat, h: Heap.HeapState)
    requires h.blocks == NONE
    ensures CopyAround(at, h) == (h, false)
  {
    hide Heap.AllocAt, Heap.ReleaseAt;
    AllocFromNone(at, h);
    Heap.ReleaseNull(at, h);
  }

  /** With room for two records a create has memory for both of its copies; with room for
      one, its lookup goes without. */
  lemma CreateCopies(at: nat, h: Heap.HeapState, st: FsState, p: u32, name: Text, kind: u16)
    requires |name| <= MAX_NAME && Known(st, p) && IsDir(Ino(st, p))
    ensures h.blocks == TWO ==>
            var (h', op) := Copies(at, h, st, CreateCall(p, name, kind));
            h'.blocks == TWO && op == CreateOp(p, name, kind, true, true)
    ensures h.blocks == ONE ==>
            var (h', op) := Copies(at, h, st, CreateCall(p, name, kind));
            h'.blocks == ONE && op == CreateOp(p, name, kind, true, false)
  {
    hide Heap.AllocAt, Heap.ReleaseAt, Heap.Good, Heap.Free, Heap.Span, CopyAround;
    TwoRecords();
    var h1 := Heap.AllocAt(at, h, 88).0;
    if h.blocks == TWO {
      AllocFromTwo(at, h);
      CopyWithOne(at, h1);
      ReleaseTo(at, CopyAround(at, h1).0, 0);
    } else if h.blocks == ONE {
      AllocFromOne(at, h);
      CopyWithNone(at, h1);
      ReleaseTo(at, h1, 1);
    }
  }

  lemma OtherAlloc(at: nat, h: Heap.HeapState)
    requires h.blocks == TWO
    ensures Heap.Do(at, h, Heap.Alloc(88)).blocks == ONE
  {
    hide Heap.Malloc, Heap.Span;
    MallocsOf();
  }

  /** A formatted disk and a fresh heap of 224 bytes: create a name, let the rest of the
      kernel allocate 88 bytes, and create the name again. It is then there twice. */
  lemma StarvedByTheHeap(at: nat, st: FsState, name: Text)
    requires Formatted(st) && |st.used| >= st.reserved + 3 && 3 <= |st.inodes| <= SLOTS && |name| <= MAX_NAME
    ensures var create := Fs(CreateCall(1, name, TYPE_FILE));
            var w, acts := World(Heap.Fresh(224), st), [create] + ([Other(Heap.Alloc(88))] + [create]);
            LegalActs(at, w, acts) && !NamesUnique(PerformAll(at, w, acts).fs)
  {
    hide NamesUnique, Inv, Create, Copies, Heap.Do, LegalActs, PerformAll;
    var create, other := Fs(CreateCall(1, name, TYPE_FILE)), Other(Heap.Alloc(88));
    var w := World(Heap.Fresh(224), st);
    FormattedEmpty(st, name);
    DuplicateWhenStarved(st, name);
    CreateCopies(at, w.heap, st, 1, name, TYPE_FILE);
    var w1 := Perform(at, w, create);
    OtherAlloc(at, w1.heap);
    var w2 := Perform(at, w1, other);
    assert LiveDir(w1.fs, 1) by { FirstCreateKeepsRoot(st, name); }
    CreateCopies(at, w2.heap, w2.fs, 1, name, TYPE_FILE);
    PerformOne(at, w2, create);
    PerformCons(at, w1, other, [create]);
    PerformCons(at, w, create, [other] + [create]);
  }

  lemma PerformOne(at: nat, w: World, a: Act)
    requires Shape(w.fs) && LegalAct(at, w, a)
    ensures LegalActs(at, w, [a]) && PerformAll(at, w, [a]) == Perform(at, w, a)
  {
    hide Perform, LegalAct;
    assert [a][1..] == [];
  }

  lemma FirstCreateKeepsRoot(st: FsState, name: Text)
    requires Formatted(st) && 3 <= |st.inodes| && |name| <= MAX_NAME
    ensures LiveDir(Create(st, 1, name, TYPE_FILE, true, true).0, 1)
  {
    FormattedEmpty(st, name);
    FormattedInv(st);
    hide Inv, NamesUnique, Create, Lookup, Formatted;
    CreateAccepted(st, 1, name);
    CreateKeepsDir(st, 1, name, TYPE_FILE);
  }
}
