/** Task creation on top of the heap: three allocations, undone in part when one of
    them fails, and the memory of the listed tasks while the rest of the kernel goes
    on allocating and freeing. */
module Tasks {
  import opened Bytes
  import opened Heap
  import opened Sched

  const TCB_SIZE := 144
  const PAGE_SIZE := 4096

  /** Addresses of a task's control block, stack and page table. */
  datatype TaskMem = TaskMem(tcb: nat, stack: nat, stackSize: u64, pageTable: nat)

  datatype Kernel = Kernel(heap: HeapState, tasks: seq<TaskMem>)

  /** The initial stack pointer, which wraps at 2^64. */
  function InitialSp(t: TaskMem): int { (t.stack + t.stackSize - 16) % 0x1_0000_0000_0000_0000 }

  // ---------------------------------------------------------------- sched_create_task

  function CreateTask(at: nat, k: Kernel, stackSize: u64): Kernel {
    var (h1, tcb) := AllocAt(at, k.heap, TCB_SIZE);
    if tcb == 0 then Kernel(h1, k.tasks)
    else
      var (h2, stack) := AllocAt(at, h1, stackSize);
      if stack == 0 then Kernel(ReleaseAt(at, h2, tcb), k.tasks)
      else
        var (h3, pageTable) := AllocAt(at, h2, PAGE_SIZE);
        if pageTable == 0 then Kernel(ReleaseAt(at, ReleaseAt(at, h3, stack), tcb), k.tasks)
        else Kernel(h3, if |k.tasks| >= MAX_TASKS then k.tasks
                        else k.tasks + [TaskMem(tcb, stack, stackSize, pageTable)])
  }

  /** Whether all three allocations succeed. */
  predicate Allocates(at: nat, k: Kernel, stackSize: u64) {
    var (h1, tcb) := AllocAt(at, k.heap, TCB_SIZE);
    var (h2, stack) := AllocAt(at, h1, stackSize);
    tcb != 0 && stack != 0 && AllocAt(at, h2, PAGE_SIZE).1 != 0
  }

  /** The three regions of a task. */
  function Regions(t: TaskMem): seq<nat> { [t.tcb, t.stack, t.pageTable] }

  function AllRegions(ts: seq<TaskMem>): seq<nat> {
    if ts == [] then [] else AllRegions(ts[..|ts| - 1]) + Regions(ts[|ts| - 1])
  }

  ghost predicate Distinct(s: seq<nat>) {
    forall i, j :: 0 <= i < j < |s| ==> s[i] != s[j]
  }

  ghost predicate Allocated(h: HeapState, t: TaskMem) {
    && t.tcb in h.requests && h.requests[t.tcb] == TCB_SIZE
    && t.stack in h.requests && h.requests[t.stack] == t.stackSize
    && t.pageTable in h.requests && h.requests[t.pageTable] == PAGE_SIZE
  }

  ghost predicate KernelInv(at: nat, k: Kernel, heapSize: nat) {
    && HeapInv(at, k.heap, heapSize)
    && |k.tasks| <= MAX_TASKS
    && Distinct(AllRegions(k.tasks))
    && (forall p :: p in AllRegions(k.tasks) ==> p in k.heap.requests && p != 0)
    && (forall i :: 0 <= i < |k.tasks| ==> Allocated(k.heap, k.tasks[i]))
  }

  /** When an allocation fails, the set of live allocations is as it was before. */
  lemma FailureRestores(at: nat, k: Kernel, stackSize: u64, heapSize: nat)
    requires HeapInv(at, k.heap, heapSize) && !Allocates(at, k, stackSize)
    ensures HeapInv(at, CreateTask(at, k, stackSize).heap, heapSize)
    ensures CreateTask(at, k, stackSize).heap.requests == k.heap.requests
    ensures CreateTask(at, k, stackSize).tasks == k.tasks
  {
    hide HeapInv, AllocAt, ReleaseAt;
    var (h1, tcb) := AllocAt(at, k.heap, TCB_SIZE);
    AllocFacts(at, k.heap, TCB_SIZE, heapSize);
    if tcb != 0 {
      var (h2, stack) := AllocAt(at, h1, stackSize);
      AllocFacts(at, h1, stackSize, heapSize);
      if stack == 0 {
        ReleaseFacts(at, h2, tcb, heapSize);
      } else {
        AllocFacts(at, h2, PAGE_SIZE, heapSize);
        ReleaseFacts(at, h2, stack, heapSize);
        ReleaseFacts(at, ReleaseAt(at, h2, stack), tcb, heapSize);
      }
    }
  }

  lemma SuccessFacts(at: nat, k: Kernel, stackSize: u64, heapSize: nat) returns (t: TaskMem)
    requires HeapInv(at, k.heap, heapSize) && Allocates(at, k, stackSize)
    ensures var k' := CreateTask(at, k, stackSize);
            && HeapInv(at, k'.heap, heapSize)
            && t.tcb !in k.heap.requests && t.stack !in k.heap.requests && t.pageTable !in k.heap.requests
            && Distinct(Regions(t)) && 0 !in Regions(t) && t.stackSize == stackSize
            && k'.heap.requests == k.heap.requests[t.tcb := TCB_SIZE][t.stack := stackSize][t.pageTable := PAGE_SIZE]
            && k'.tasks == if |k.tasks| >= MAX_TASKS then k.tasks else k.tasks + [t]
  {
    hide HeapInv, AllocAt, ReleaseAt;
    var (h1, tcb) := AllocAt(at, k.heap, TCB_SIZE);
    AllocFacts(at, k.heap, TCB_SIZE, heapSize);
    var (h2, stack) := AllocAt(at, h1, stackSize);
    AllocFacts(at, h1, stackSize, heapSize);
    AllocFacts(at, h2, PAGE_SIZE, heapSize);
    t := TaskMem(tcb, stack, stackSize, AllocAt(at, h2, PAGE_SIZE).1);
  }

  lemma {:induction false} RegionOf(ts: seq<TaskMem>, i: nat, r: nat)
    requires i < |ts| && r < 3
    ensures |AllRegions(ts)| == 3 * |ts| && AllRegions(ts)[3 * i + r] == Regions(ts[i])[r]
    decreases |ts|
  {
    var front := ts[..|ts| - 1];
    if |ts| > 1 {
      RegionOf(front, if i < |front| then i else 0, r);
    }
  }

  /** A new task's regions are new, so they are distinct from those of the listed tasks. */
  lemma ListsTask(was: map<nat, nat>, now: map<nat, nat>, ts: seq<TaskMem>, t: TaskMem)
    requires Distinct(AllRegions(ts)) && (forall p :: p in AllRegions(ts) ==> p in was && p != 0)
    requires Distinct(Regions(t)) && 0 !in Regions(t) && (forall p :: p in Regions(t) ==> p !in was)
    requires now == was[t.tcb := TCB_SIZE][t.stack := t.stackSize][t.pageTable := PAGE_SIZE]
    ensures Distinct(AllRegions(ts + [t]))
    ensures forall p :: p in AllRegions(ts + [t]) ==> p in now && p != 0
  {
    hide Distinct;
    assert (ts + [t])[..|ts|] == ts;
    assert AllRegions(ts + [t]) == AllRegions(ts) + Regions(t);
    Extend(AllRegions(ts), Regions(t), was.Keys);
    forall p | p in AllRegions(ts + [t]) ensures p in now && p != 0 {
      assert p in AllRegions(ts) || p in Regions(t);
    }
  }

  lemma StillAllocated(h: HeapState, h': HeapState, t: TaskMem, u: TaskMem)
    requires Allocated(h, u)
    requires t.tcb !in h.requests && t.stack !in h.requests && t.pageTable !in h.requests
    requires h'.requests == h.requests[t.tcb := TCB_SIZE][t.stack := t.stackSize][t.pageTable := PAGE_SIZE]
    ensures Allocated(h', u)
  {
  }

  lemma NewlyAllocated(h: HeapState, h': HeapState, t: TaskMem)
    requires Distinct(Regions(t))
    requires h'.requests == h.requests[t.tcb := TCB_SIZE][t.stack := t.stackSize][t.pageTable := PAGE_SIZE]
    ensures Allocated(h', t)
  {
    var rs := Regions(t);
    assert rs[0] != rs[1] && rs[0] != rs[2] && rs[1] != rs[2];
  }

  lemma CreateInv(at: nat, k: Kernel, stackSize: u64, heapSize: nat)
    requires KernelInv(at, k, heapSize)
    ensures KernelInv(at, CreateTask(at, k, stackSize), heapSize)
  {
    hide HeapInv, CreateTask, Allocates, AllRegions, Distinct, Allocated;
    if !Allocates(at, k, stackSize) {
      FailureRestores(at, k, stackSize, heapSize);
      forall i | 0 <= i < |k.tasks| ensures Allocated(CreateTask(at, k, stackSize).heap, k.tasks[i]) {
        SameAllocated(k.heap, CreateTask(at, k, stackSize).heap, k.tasks[i]);
      }
    } else {
      var t := SuccessFacts(at, k, stackSize, heapSize);
      var k' := CreateTask(at, k, stackSize);
      NewlyAllocated(k.heap, k'.heap, t);
      forall i | 0 <= i < |k.tasks| ensures Allocated(k'.heap, k.tasks[i]) {
        StillAllocated(k.heap, k'.heap, t, k.tasks[i]);
      }
      ListsTask(k.heap.requests, k'.heap.requests, k.tasks, t);
    }
  }

  lemma SameAllocated(h: HeapState, h': HeapState, t: TaskMem)
    requires Allocated(h, t) && h'.requests == h.requests
    ensures Allocated(h', t)
  {
  }

  lemma Extend(a: seq<nat>, b: seq<nat>, used: set<nat>)
    requires Distinct(a) && Distinct(b)
    requires (forall p :: p in a ==> p in used) && (forall p :: p in b ==> p !in used)
    ensures Distinct(a + b)
  {
    forall i, j | 0 <= i < j < |a + b| ensures (a + b)[i] != (a + b)[j] {
      if i < |a| && j >= |a| {
        assert (a + b)[i] in a && (a + b)[j] in b;
      }
    }
  }

  // ---------------------------------------------------------------- the rest of the kernel

  /** The rest of the kernel allocates, and frees what does not belong to a listed task. */
  predicate Foreign(at: nat, k: Kernel, c: Call) {
    LegalCall(at, k.heap, c) && (c.Release? ==> c.p !in AllRegions(k.tasks))
  }

  datatype Act = Create(stackSize: u64) | Other(call: Call)

  predicate LegalAct(at: nat, k: Kernel, a: Act) { a.Other? ==> Foreign(at, k, a.call) }

  function Perform(at: nat, k: Kernel, a: Act): Kernel
    requires LegalAct(at, k, a)
  {
    match a
    case Create(stackSize) => CreateTask(at, k, stackSize)
    case Other(call) => Kernel(Do(at, k.heap, call), k.tasks)
  }

  lemma OtherRequests(at: nat, h: HeapState, c: Call, heapSize: nat, p: nat)
    requires HeapInv(at, h, heapSize) && LegalCall(at, h, c) && p in h.requests && (c.Release? ==> c.p != p)
    ensures p in Do(at, h, c).requests && Do(at, h, c).requests[p] == h.requests[p]
  {
    hide Good, Live, Span;
    if c.Alloc? && Malloc(h.blocks, c.size).1.Some? {
      MallocGood(at, h.blocks, c.size, heapSize);
    }
  }

  lemma OtherInv(at: nat, k: Kernel, c: Call, heapSize: nat)
    requires KernelInv(at, k, heapSize) && Foreign(at, k, c)
    ensures KernelInv(at, Kernel(Do(at, k.heap, c), k.tasks), heapSize)
  {
    hide HeapInv, Do, LegalCall;
    DoInv(at, k.heap, c, heapSize);
    forall p | p in AllRegions(k.tasks)
      ensures p in Do(at, k.heap, c).requests && Do(at, k.heap, c).requests[p] == k.heap.requests[p]
    {
      OtherRequests(at, k.heap, c, heapSize, p);
    }
    forall i | 0 <= i < |k.tasks| ensures Allocated(Do(at, k.heap, c), k.tasks[i]) {
      assert Allocated(k.heap, k.tasks[i]);
      RegionOf(k.tasks, i, 0);
      RegionOf(k.tasks, i, 1);
      RegionOf(k.tasks, i, 2);
      assert k.tasks[i].tcb in AllRegions(k.tasks) && k.tasks[i].stack in AllRegions(k.tasks)
          && k.tasks[i].pageTable in AllRegions(k.tasks);
    }
  }

  predicate LegalActs(at: nat, k: Kernel, acts: seq<Act>)
    decreases |acts|
  {
    acts == [] || (LegalAct(at, k, acts[0]) && LegalActs(at, Perform(at, k, acts[0]), acts[1..]))
  }

  function PerformAll(at: nat, k: Kernel, acts: seq<Act>): Kernel
    requires LegalActs(at, k, acts)
    decreases |acts|
  {
    if acts == [] then k else PerformAll(at, Perform(at, k, acts[0]), acts[1..])
  }

  lemma PerformInv(at: nat, k: Kernel, a: Act, heapSize: nat)
    requires KernelInv(at, k, heapSize) && LegalAct(at, k, a)
    ensures KernelInv(at, Perform(at, k, a), heapSize)
  {
    hide KernelInv, CreateTask, Do, Foreign;
    match a
    case Create(stackSize) => CreateInv(at, k, stackSize, heapSize);
    case Other(call) => OtherInv(at, k, call, heapSize);
  }

  lemma {:induction false} PerformAllInv(at: nat, k: Kernel, acts: seq<Act>, heapSize: nat)
    requires KernelInv(at, k, heapSize) && LegalActs(at, k, acts)
    ensures KernelInv(at, PerformAll(at, k, acts), heapSize)
    decreases |acts|
  {
    hide KernelInv, Perform, LegalAct;
    if acts != [] {
      PerformInv(at, k, acts[0], heapSize);
      PerformAllInv(at, Perform(at, k, acts[0]), acts[1..], heapSize);
    }
  }

  /** The bytes of region r of task t that the allocator granted. */
  function RegionSize(t: TaskMem, r: nat): nat {
    if r == 0 then TCB_SIZE else if r == 1 then Granted(t.stackSize) else PAGE_SIZE
  }

  /** In every state reachable from a fresh heap, the control blocks, stacks and page
      tables of the listed tasks are pairwise disjoint. */
  lemma TasksDisjoint(at: nat, heapSize: nat, acts: seq<Act>, i: nat, r: nat, j: nat, s: nat)
    requires heapSize >= 24 && LegalActs(at, Kernel(Fresh(heapSize), []), acts)
    requires var ts := PerformAll(at, Kernel(Fresh(heapSize), []), acts).tasks;
             i < |ts| && j < |ts| && r < 3 && s < 3 && (i != j || r != s)
    ensures var ts := PerformAll(at, Kernel(Fresh(heapSize), []), acts).tasks;
            var p, q := Regions(ts[i])[r], Regions(ts[j])[s];
            p + RegionSize(ts[i], r) <= q || q + RegionSize(ts[j], s) <= p
  {
    hide Do, LegalActs, PerformAll, Good, Live;
    var k0 := Kernel(Fresh(heapSize), []);
    assert KernelInv(at, k0, heapSize) by { FreshKernel(at, heapSize); }
    PerformAllInv(at, k0, acts, heapSize);
    RegionsApart(at, PerformAll(at, k0, acts), heapSize, i, r, j, s);
  }

  lemma FreshInv(at: nat, heapSize: nat)
    requires heapSize >= 24
    ensures HeapInv(at, Fresh(heapSize), heapSize)
  {
    InitGood(heapSize);
    One(at, Blk(heapSize - 24, true));
  }

  lemma RegionsApart(at: nat, k: Kernel, heapSize: nat, i: nat, r: nat, j: nat, s: nat)
    requires KernelInv(at, k, heapSize) && i < |k.tasks| && j < |k.tasks| && r < 3 && s < 3 && (i != j || r != s)
    ensures var p, q := Regions(k.tasks[i])[r], Regions(k.tasks[j])[s];
            p + RegionSize(k.tasks[i], r) <= q || q + RegionSize(k.tasks[j], s) <= p
  {
    hide Good, Live;
    RegionOf(k.tasks, i, r);
    RegionOf(k.tasks, j, s);
    var p, q := Regions(k.tasks[i])[r], Regions(k.tasks[j])[s];
    assert 3 * i + r != 3 * j + s;
    assert p != q;
    assert Allocated(k.heap, k.tasks[i]) && Allocated(k.heap, k.tasks[j]);
    if p < q {
      LiveDisjoint(at, k.heap.blocks, p, q);
    } else {
      LiveDisjoint(at, k.heap.blocks, q, p);
    }
  }

  /** A listed task's stack is a payload in use, inside the heap. */
  lemma StackInside(at: nat, k: Kernel, heapSize: nat, i: nat)
    requires KernelInv(at, k, heapSize) && i < |k.tasks|
    ensures at + 24 <= k.tasks[i].stack && k.tasks[i].stack + Granted(k.tasks[i].stackSize) <= at + heapSize
  {
    hide Live, AllRegions, Distinct;
    assert Allocated(k.heap, k.tasks[i]);
    assert k.tasks[i].stack in Live(at, k.heap.blocks);
    LiveInside(at, k.heap.blocks, k.tasks[i].stack);
  }

  lemma LiveInside(at: nat, bs: seq<Blk>, p: nat)
    requires p in Live(at, bs)
    ensures at + 24 <= p && p + Live(at, bs)[p] <= at + Span(bs)
  {
  }

  lemma SpIs(t: TaskMem)
    requires 24 <= t.stack && t.stack + Granted(t.stackSize) < U64_LIMIT
    ensures t.stack <= InitialSp(t) < t.stack + Granted(t.stackSize) <==> 16 <= t.stackSize <= 0xFFFF_FFFF_FFFF_FFF8
    ensures 16 <= t.stackSize <= 0xFFFF_FFFF_FFFF_FFF8 ==> InitialSp(t) + 16 == t.stack + t.stackSize
  {
  }

  /** In every reachable state the initial stack pointer of a listed task lies inside the
      task's own stack exactly for stacks of at least 16 bytes whose size did not wrap in
      kmalloc; the 16 bytes above it then belong to no other region of any listed task. */
  lemma SpInOwnStackIff(at: nat, heapSize: nat, acts: seq<Act>, i: nat, j: nat, s: nat)
    requires heapSize >= 24 && at + heapSize < U64_LIMIT && LegalActs(at, Kernel(Fresh(heapSize), []), acts)
    requires var ts := PerformAll(at, Kernel(Fresh(heapSize), []), acts).tasks;
             i < |ts| && j < |ts| && s < 3 && (i != j || s != 1)
    ensures var ts := PerformAll(at, Kernel(Fresh(heapSize), []), acts).tasks;
            var sp, q, fits := InitialSp(ts[i]), Regions(ts[j])[s], 16 <= ts[i].stackSize <= 0xFFFF_FFFF_FFFF_FFF8;
            && (ts[i].stack <= sp < ts[i].stack + Granted(ts[i].stackSize) <==> fits)
            && (fits ==> sp + 16 <= q || q + RegionSize(ts[j], s) <= sp)
  {
    hide LegalActs, PerformAll, KernelInv, InitialSp;
    var k0 := Kernel(Fresh(heapSize), []);
    assert KernelInv(at, k0, heapSize) by { FreshKernel(at, heapSize); }
    PerformAllInv(at, k0, acts, heapSize);
    StackInside(at, PerformAll(at, k0, acts), heapSize, i);
    SpIs(PerformAll(at, k0, acts).tasks[i]);
    TasksDisjoint(at, heapSize, acts, i, 1, j, s);
  }

  lemma FreshKernel(at: nat, heapSize: nat)
    requires heapSize >= 24
    ensures KernelInv(at, Kernel(Fresh(heapSize), []), heapSize)
  {
    hide HeapInv;
    FreshInv(at, heapSize);
  }

  // ---------------------------------------------------------------- a full table

  /** Something new is allocated that no listed task owns. */
  ghost predicate Leaks(k: Kernel, k': Kernel) {
    exists p :: p in k'.heap.requests && p !in k.heap.requests && p !in AllRegions(k'.tasks)
  }

  /** Task creation leaks, all three regions, exactly when its allocations succeed and the
      table is full: sched_add_task drops the task without a word. */
  lemma LeaksIff(at: nat, k: Kernel, stackSize: u64, heapSize: nat)
    requires KernelInv(at, k, heapSize)
    ensures var k' := CreateTask(at, k, stackSize);
            && (Leaks(k, k') <==> Allocates(at, k, stackSize) && |k.tasks| >= MAX_TASKS)
            && (Leaks(k, k') ==> k'.tasks == k.tasks && |k'.heap.requests| == |k.heap.requests| + 3)
  {
    hide HeapInv, CreateTask, Allocates, Distinct, Allocated;
    var k' := CreateTask(at, k, stackSize);
    if !Allocates(at, k, stackSize) {
      FailureRestores(at, k, stackSize, heapSize);
    } else {
      var t := SuccessFacts(at, k, stackSize, heapSize);
      if |k.tasks| >= MAX_TASKS {
        assert t.tcb in k'.heap.requests && t.tcb !in AllRegions(k.tasks);
        ThreeMore(k.heap.requests, t);
      } else {
        assert (k.tasks + [t])[..|k.tasks|] == k.tasks;
        assert AllRegions(k'.tasks) == AllRegions(k.tasks) + Regions(t);
        forall p | p in k'.heap.requests && p !in k.heap.requests ensures p in AllRegions(k'.tasks) {
          assert p in Regions(t);
        }
      }
    }
  }

  lemma OneMore(m: map<nat, u64>, p: nat, size: u64)
    requires p !in m
    ensures |m[p := size]| == |m| + 1
  {
    assert m[p := size].Keys == m.Keys + {p};
  }

  lemma ThreeMore(was: map<nat, u64>, t: TaskMem)
    requires Distinct(Regions(t)) && (forall p :: p in Regions(t) ==> p !in was)
    ensures |was[t.tcb := TCB_SIZE][t.stack := t.stackSize][t.pageTable := PAGE_SIZE]| == |was| + 3
  {
    var rs := Regions(t);
    assert rs[0] != rs[1] && rs[0] != rs[2] && rs[1] != rs[2] && rs[0] in rs && rs[1] in rs && rs[2] in rs;
    hide Distinct, Regions;
    OneMore(was, t.tcb, TCB_SIZE);
    OneMore(was[t.tcb := TCB_SIZE], t.stack, t.stackSize);
    OneMore(was[t.tcb := TCB_SIZE][t.stack := t.stackSize], t.pageTable, PAGE_SIZE);
  }

  // ---------------------------------------------------------------- nine tasks

  /** Everything is in use but the last block, which has at least s bytes. */
  ghost predicate Open(bs: seq<Blk>, s: nat) {
    bs != [] && bs[|bs| - 1].free && bs[|bs| - 1].size >= s && forall j :: 0 <= j < |bs| - 1 ==> !bs[j].free
  }

  lemma OpenAlloc(at: nat, h: HeapState, size: u64, s: nat)
    requires size > 0 && Open(h.blocks, s) && s > Round8(size) + 24
    ensures AllocAt(at, h, size).1 != 0 && Open(AllocAt(at, h, size).0.blocks, s - Round8(size) - 24)
  {
    hide Round8, Span;
    var bs, need := h.blocks, Round8(size);
    MallocOf(bs, size, |bs| - 1);
    assert bs[..|bs| - 1] + Carve(bs[|bs| - 1], need) + bs[|bs|..]
        == bs[..|bs| - 1] + [Blk(need, false), Blk(bs[|bs| - 1].size - need - 24, true)];
  }

  lemma OpenCreate(at: nat, k: Kernel, s: nat)
    requires Open(k.heap.blocks, s) && s > 4328
    ensures Allocates(at, k, 16) && Open(CreateTask(at, k, 16).heap.blocks, s - 4328)
    ensures |k.tasks| < MAX_TASKS ==> |CreateTask(at, k, 16).tasks| == |k.tasks| + 1
  {
    hide AllocAt, Open;
    OpenAlloc(at, k.heap, TCB_SIZE, s);
    var h1 := AllocAt(at, k.heap, TCB_SIZE).0;
    OpenAlloc(at, h1, 16, s - 168);
    var h2 := AllocAt(at, h1, 16).0;
    OpenAlloc(at, h2, PAGE_SIZE, s - 208);
  }

  function TaskAfterTask(at: nat, k: Kernel, n: nat): Kernel {
    if n == 0 then k else CreateTask(at, TaskAfterTask(at, k, n - 1), 16)
  }

  lemma {:induction false} OpenTasks(at: nat, n: nat)
    requires n <= MAX_TASKS
    ensures var k := TaskAfterTask(at, Kernel(Fresh(40000), []), n);
            KernelInv(at, k, 40000) && |k.tasks| == n && Open(k.heap.blocks, 39976 - 4328 * n)
  {
    hide KernelInv, CreateTask, Open;
    if n == 0 {
      FreshKernel(at, 40000);
      FreshIsOpen();
    } else {
      OpenTasks(at, n - 1);
      var k := TaskAfterTask(at, Kernel(Fresh(40000), []), n - 1);
      CreateInv(at, k, 16, 40000);
      OpenCreate(at, k, 39976 - 4328 * (n - 1));
    }
  }

  lemma FreshIsOpen()
    ensures Open(Fresh(40000).blocks, 39976)
  {
  }

  /** On a fresh heap of 40000 bytes the ninth task with a 16-byte stack leaks. */
  lemma NinthTaskLeaks(at: nat)
    ensures var k := TaskAfterTask(at, Kernel(Fresh(40000), []), 8);
            Leaks(k, CreateTask(at, k, 16))
  {
    hide KernelInv, CreateTask, Open, Leaks;
    OpenTasks(at, 8);
    var k := TaskAfterTask(at, Kernel(Fresh(40000), []), 8);
    OpenCreate(at, k, 5352);
    LeaksIff(at, k, 16, 40000);
  }
}
