/** Any number of cores running the scheduler's entry points concurrently. A core
    executes one instruction of the spinlock, or one access to the scheduler's shared
    variables, at a time; the interleaving is arbitrary. The exclusive monitor follows
    the Arm Architecture Reference Manual (DDI 0487, Synchronization and semaphores):
    a store-exclusive succeeds only while the core's monitor is set, may fail for no
    reason, and every store to the lock word clears all monitors. */
module SpinLock {
  import opened Sched

  /** The next instruction of a core. */
  datatype Pc =
    | Out                    // not in a scheduler call
    | LoadX                  // ldaxr
    | TestLoad               // cbnz on the loaded value
    | StoreX                 // stxr
    | TestStore              // cbnz on the store's status
    | Enter                  // the tests at the start of the critical section
    | Second                 // its first write
    | Third                  // its second write
    | Unlock(again: bool)    // stlr; `again` when sched_schedule goes on to yield

  datatype Core = Core(pc: Pc, op: Event, w: nat, monitor: bool)

  /** `table` is the history variable: the scheduler state at the last unlock. */
  datatype Machine = Machine(
    cores: seq<Core>, lock: nat,
    slots: seq<Task>, num: nat, index: int, current: Task,
    table: Table)

  ghost predicate Sized(m: Machine) { |m.slots| == MAX_TASKS && m.num <= MAX_TASKS }

  function View(m: Machine): Table
    requires m.num <= |m.slots|
  {
    Table(m.slots[..m.num], m.index, m.current)
  }

  // ---------------------------------------------------------------- steps

  function Put(m: Machine, c: nat, core: Core): Machine
    requires c < |m.cores|
  {
    m.(cores := m.cores[c := core])
  }

  function ClearMonitors(cores: seq<Core>): (r: seq<Core>)
    ensures |r| == |cores|
    ensures forall i :: 0 <= i < |cores| ==> r[i] == cores[i].(monitor := false)
  {
    seq(|cores|, i requires 0 <= i < |cores| => cores[i].(monitor := false))
  }

  /** A store to the lock word by core c. */
  function StoreLock(m: Machine, c: nat, value: nat, core: Core): Machine
    requires c < |m.cores|
  {
    m.(lock := value, cores := ClearMonitors(m.cores)[c := core])
  }

  /** The lock instructions; `ok` is false when a store-exclusive fails spuriously. */
  function LockStep(m: Machine, c: nat, ok: bool): Machine
    requires c < |m.cores|
  {
    var k := m.cores[c];
    match k.pc
    case LoadX => Put(m, c, Core(TestLoad, k.op, m.lock, true))
    case TestLoad => Put(m, c, k.(pc := if k.w != 0 then LoadX else StoreX))
    case StoreX =>
      if k.monitor && ok then StoreLock(m, c, 1, Core(TestStore, k.op, 0, false))
      else Put(m, c, Core(TestStore, k.op, 1, false))
    case TestStore => Put(m, c, k.(pc := if k.w != 0 then LoadX else Enter))
    case _ => m
  }

  /** Where the tests at the start of the critical section lead. */
  function AfterTests(m: Machine, op: Event): Pc {
    match op
    case Add(_) => if m.num >= MAX_TASKS then Unlock(false) else Second
    case Schedule => if m.num == 0 then Unlock(false) else if m.current == 0 then Second else Unlock(true)
    case Yield => if m.num <= 1 then Unlock(false) else Second
  }

  function FirstWrite(m: Machine, op: Event): Machine
    requires Sized(m) && (op.Add? ==> m.num < MAX_TASKS) && (op.Yield? ==> m.num > 0)
  {
    match op
    case Add(task) => m.(slots := m.slots[m.num := task])
    case Schedule => m.(index := 0)
    case Yield => m.(index := NextIndex(m.index, m.num))
  }

  function SecondWrite(m: Machine, op: Event): Machine
    requires Sized(m) && (!op.Add? ==> 0 <= m.index < MAX_TASKS)
  {
    match op
    case Add(_) => m.(num := m.num + 1)
    case Schedule => m.(current := m.slots[m.index])
    case Yield => m.(current := m.slots[m.index])
  }

  function SectionStep(m: Machine, c: nat): Machine
    requires c < |m.cores| && Sized(m)
  {
    var k := m.cores[c];
    match k.pc
    case Enter => Put(m, c, k.(pc := AfterTests(m, k.op)))
    case Second =>
      if (k.op.Add? && m.num >= MAX_TASKS) || (k.op.Yield? && m.num == 0) then m
      else Put(FirstWrite(m, k.op), c, k.(pc := Third))
    case Third =>
      if !k.op.Add? && !(0 <= m.index < MAX_TASKS) then m
      else Put(SecondWrite(m, k.op), c, k.(pc := Unlock(false)))
    case Unlock(again) =>
      StoreLock(m, c, 0, Core(if again then LoadX else Out, if again then Yield else k.op, 0, false))
        .(table := View(m))
    case _ => m
  }

  /** Core c calls an entry point, or executes its next instruction. */
  datatype Label = Call(c: nat, op: Event) | Exec(c: nat, ok: bool)

  predicate InSectionPc(pc: Pc) { pc.Enter? || pc.Second? || pc.Third? || pc.Unlock? }

  function Next(m: Machine, l: Label): Machine
    requires Sized(m)
  {
    if l.c >= |m.cores| then m
    else match l
      case Call(c, op) => if m.cores[c].pc.Out? && Proper(op)
          then Put(m, c, Core(LoadX, op, 0, m.cores[c].monitor)) else m
      case Exec(c, ok) => if InSectionPc(m.cores[c].pc) then SectionStep(m, c) else LockStep(m, c, ok)
  }

  // ---------------------------------------------------------------- invariant

  /** The core has won the lock and not yet given it back. */
  predicate Holding(k: Core) { (k.pc.TestStore? && k.w == 0) || InSectionPc(k.pc) }

  /** What the shared variables are while a core is at a point of its critical section. */
  ghost predicate Inside(m: Machine, k: Core)
    requires Sized(m)
  {
    var v, t := View(m), m.table;
    match k.pc
    case Second =>
      v == t && AfterTests(m, k.op).Second?
    case Third => (
      match k.op
      case Add(task) => v == t && m.num < MAX_TASKS && m.slots[m.num] == task
      case Schedule => m.num > 0 && t.current == 0 && v == Table(t.tasks, 0, t.current)
      case Yield => m.num > 1 && v == Table(t.tasks, NextIndex(t.index, m.num), t.current))
    case Unlock(_) => v == Apply(t, k.op)
    case _ => v == t
  }

  ghost predicate Exclusive(m: Machine) {
    && (m.lock == 0 || m.lock == 1)
    && (forall c :: 0 <= c < |m.cores| && Holding(m.cores[c]) ==> m.lock == 1)
    && (forall c, d :: 0 <= c < |m.cores| && 0 <= d < |m.cores| ==>
          Holding(m.cores[c]) && Holding(m.cores[d]) ==> c == d)
    && (m.lock == 1 ==> exists c :: 0 <= c < |m.cores| && Holding(m.cores[c]))
  }

  /** A set monitor vouches for the value that was loaded. */
  ghost predicate Watched(m: Machine) {
    forall c :: 0 <= c < |m.cores| ==>
      var k := m.cores[c];
      && ((k.pc.TestLoad? || k.pc.StoreX?) && k.monitor ==> k.w == m.lock)
      && (k.pc.StoreX? ==> k.w == 0)
      && Proper(k.op)
  }

  ghost predicate MachineInv(m: Machine) {
    && Sized(m) && TableInv(m.table)
    && Exclusive(m) && Watched(m)
    && (m.lock == 0 ==> View(m) == m.table)
    && (forall c :: 0 <= c < |m.cores| && Holding(m.cores[c]) ==> Inside(m, m.cores[c]))
  }

  function Boot(n: nat): Machine {
    Machine(seq(n, _ => Core(Out, Yield, 0, false)), 0, seq(MAX_TASKS, _ => 0), 0, -1, 0, Table([], -1, 0))
  }

  lemma BootInv(n: nat)
    ensures MachineInv(Boot(n))
  {
    var m := Boot(n);
    assert m.slots[..0] == [];
  }

  // ---------------------------------------------------------------- every step keeps it

  /** A step of a core that does not hold the lock and does not win it. */
  lemma OutsideStep(m: Machine, c: nat, k: Core)
    requires MachineInv(m) && c < |m.cores| && !Holding(m.cores[c]) && !Holding(k) && Proper(k.op)
    requires (k.pc.TestLoad? || k.pc.StoreX?) && k.monitor ==> k.w == m.lock
    requires k.pc.StoreX? ==> k.w == 0
    ensures MachineInv(Put(m, c, k))
  {
    var m' := Put(m, c, k);
    assert forall d :: 0 <= d < |m.cores| && d != c ==> m'.cores[d] == m.cores[d];
    if m.lock == 1 {
      var h :| 0 <= h < |m.cores| && Holding(m.cores[h]);
      assert Holding(m'.cores[h]);
    }
  }

  /** Winning the lock: the monitor says that the lock word is still zero. */
  lemma WinLock(m: Machine, c: nat)
    requires MachineInv(m) && c < |m.cores| && m.cores[c].pc.StoreX? && m.cores[c].monitor
    ensures MachineInv(StoreLock(m, c, 1, Core(TestStore, m.cores[c].op, 0, false)))
  {
    var m' := StoreLock(m, c, 1, Core(TestStore, m.cores[c].op, 0, false));
    assert m.lock == 0;
    assert forall d :: 0 <= d < |m.cores| && d != c ==> m'.cores[d] == m.cores[d].(monitor := false);
    assert forall d :: 0 <= d < |m.cores| && d != c ==> !Holding(m'.cores[d]);
    assert Holding(m'.cores[c]);
    assert View(m') == View(m);
  }

  /** A step inside the critical section: the others are outside, so only this core's
      view of the shared variables matters. */
  lemma InsideStep(m: Machine, c: nat, shared: Machine, k: Core)
    requires MachineInv(m) && c < |m.cores| && Holding(m.cores[c])
    requires shared.cores == m.cores && shared.lock == m.lock && shared.table == m.table && Sized(shared)
    requires Holding(k) && k.op == m.cores[c].op && Inside(shared, k)
    requires k.pc.StoreX? == false && k.pc.TestLoad? == false
    ensures MachineInv(Put(shared, c, k))
  {
    var m' := Put(shared, c, k);
    assert m.lock == 1;
    assert forall d :: 0 <= d < |m.cores| && d != c ==> m'.cores[d] == m.cores[d] && !Holding(m.cores[d]);
    assert Holding(m'.cores[c]);
    assert View(m') == View(shared);
    assert Inside(m', k);
  }

  lemma GiveBack(m: Machine, c: nat, k: Core)
    requires MachineInv(m) && c < |m.cores| && m.cores[c].pc.Unlock?
    requires !Holding(k) && Proper(k.op) && !k.pc.StoreX? && !k.pc.TestLoad?
    ensures MachineInv(StoreLock(m, c, 0, k).(table := View(m)))
    ensures View(m) == Apply(m.table, m.cores[c].op)
  {
    var m' := StoreLock(m, c, 0, k).(table := View(m));
    assert Inside(m, m.cores[c]);
    ApplyInv(m.table, m.cores[c].op);
    assert forall d :: 0 <= d < |m.cores| && d != c ==> m'.cores[d] == m.cores[d].(monitor := false);
    assert forall d :: 0 <= d < |m.cores| && d != c ==> !Holding(m.cores[d]);
    assert View(m') == View(m);
  }

  lemma FirstWriteInside(m: Machine, c: nat)
    requires MachineInv(m) && c < |m.cores| && m.cores[c].pc.Second?
    ensures var k := m.cores[c];
            && (k.op.Add? ==> m.num < MAX_TASKS) && (k.op.Yield? ==> m.num > 0)
            && Sized(FirstWrite(m, k.op)) && Inside(FirstWrite(m, k.op), k.(pc := Third))
  {
    var k := m.cores[c];
    assert Inside(m, k);
    if k.op.Add? {
      assert FirstWrite(m, k.op).slots[..m.num] == m.slots[..m.num];
    }
  }

  lemma SecondWriteInside(m: Machine, c: nat)
    requires MachineInv(m) && c < |m.cores| && m.cores[c].pc.Third?
    ensures var k := m.cores[c];
            && (!k.op.Add? ==> 0 <= m.index < MAX_TASKS)
            && Sized(SecondWrite(m, k.op)) && Inside(SecondWrite(m, k.op), k.(pc := Unlock(false)))
  {
    var k := m.cores[c];
    assert Inside(m, k);
    if k.op.Add? {
      assert m.slots[..m.num + 1] == m.slots[..m.num] + [m.slots[m.num]];
    }
  }

  lemma NextInv(m: Machine, l: Label)
    requires MachineInv(m)
    ensures MachineInv(Next(m, l))
  {
    if l.c < |m.cores| {
      hide MachineInv, Inside;
      var c, k := l.c, m.cores[l.c];
      InvParts(m, c);
      if l.Call? {
        if k.pc.Out? && Proper(l.op) {
          OutsideStep(m, c, Core(LoadX, l.op, 0, k.monitor));
        }
      } else if InSectionPc(k.pc) {
        SectionInv(m, c);
      } else {
        LockInv(m, c, l.ok);
      }
    }
  }

  lemma InvParts(m: Machine, c: nat)
    requires MachineInv(m) && c < |m.cores|
    ensures Sized(m) && Proper(m.cores[c].op) && TableInv(m.table)
    ensures Holding(m.cores[c]) ==> Inside(m, m.cores[c])
    ensures m.cores[c].pc.TestLoad? || m.cores[c].pc.StoreX? ==> m.cores[c].monitor ==> m.cores[c].w == m.lock
    ensures m.cores[c].pc.StoreX? ==> m.cores[c].w == 0
  {
    hide Inside;
  }

  lemma LockInv(m: Machine, c: nat, ok: bool)
    requires MachineInv(m) && c < |m.cores| && !InSectionPc(m.cores[c].pc)
    ensures MachineInv(LockStep(m, c, ok))
  {
    hide MachineInv, Inside;
    var k := m.cores[c];
    InvParts(m, c);
    match k.pc
    case LoadX => OutsideStep(m, c, Core(TestLoad, k.op, m.lock, true));
    case TestLoad => OutsideStep(m, c, k.(pc := if k.w != 0 then LoadX else StoreX));
    case StoreX =>
      if k.monitor && ok {
        WinLock(m, c);
      } else {
        OutsideStep(m, c, Core(TestStore, k.op, 1, false));
      }
    case TestStore =>
      if k.w != 0 {
        OutsideStep(m, c, k.(pc := LoadX));
      } else {
        EnterInside(m, c);
        InsideStep(m, c, m, k.(pc := Enter));
      }
    case _ =>
  }

  lemma EnterInside(m: Machine, c: nat)
    requires MachineInv(m) && c < |m.cores| && Holding(m.cores[c]) && m.cores[c].pc.TestStore?
    ensures Sized(m) && Inside(m, m.cores[c].(pc := Enter))
  {
    assert Inside(m, m.cores[c]);
  }

  lemma TestsInside(m: Machine, c: nat)
    requires MachineInv(m) && c < |m.cores| && m.cores[c].pc.Enter?
    ensures Sized(m) && Inside(m, m.cores[c].(pc := AfterTests(m, m.cores[c].op)))
  {
    assert Inside(m, m.cores[c]);
  }

  lemma SectionInv(m: Machine, c: nat)
    requires MachineInv(m) && c < |m.cores| && InSectionPc(m.cores[c].pc)
    ensures Sized(m) && MachineInv(SectionStep(m, c))
  {
    hide MachineInv, Inside, FirstWrite, SecondWrite;
    var k := m.cores[c];
    InvParts(m, c);
    match k.pc
    case Enter =>
      TestsInside(m, c);
      InsideStep(m, c, m, k.(pc := AfterTests(m, k.op)));
    case Second =>
      FirstWriteInside(m, c);
      WritesKeep(m, k.op);
      InsideStep(m, c, FirstWrite(m, k.op), k.(pc := Third));
    case Third =>
      SecondWriteInside(m, c);
      WritesKeep(m, k.op);
      InsideStep(m, c, SecondWrite(m, k.op), k.(pc := Unlock(false)));
    case Unlock(again) =>
      GiveBack(m, c, Core(if again then LoadX else Out, if again then Yield else k.op, 0, false));
    case _ =>
  }

  lemma WritesKeep(m: Machine, op: Event)
    requires Sized(m)
    ensures (op.Add? ==> m.num < MAX_TASKS) && (op.Yield? ==> m.num > 0) ==>
            var s := FirstWrite(m, op); s.cores == m.cores && s.lock == m.lock && s.table == m.table
    ensures (!op.Add? ==> 0 <= m.index < MAX_TASKS) ==>
            var s := SecondWrite(m, op); s.cores == m.cores && s.lock == m.lock && s.table == m.table
  {
  }

  // ---------------------------------------------------------------- runs

  /** The critical section that a step completes, if any. */
  function Commit(m: Machine, l: Label): seq<Event> {
    if l.Exec? && l.c < |m.cores| && m.cores[l.c].pc.Unlock? then [m.cores[l.c].op] else []
  }

  /** Each step either leaves the published scheduler state alone or applies to it, in
      one piece, the operation whose critical section it completes. */
  lemma StepRefines(m: Machine, l: Label)
    requires MachineInv(m)
    ensures Next(m, l).table == Run(m.table, Commit(m, l))
    ensures forall e :: e in Commit(m, l) ==> Proper(e)
  {
    if Commit(m, l) != [] {
      hide MachineInv, Inside, Apply;
      var k := m.cores[l.c];
      InvParts(m, l.c);
      GiveBack(m, l.c, Core(if k.pc.again then LoadX else Out, if k.pc.again then Yield else k.op, 0, false));
      assert Run(m.table, [k.op]) == Apply(m.table, k.op) by { OneEvent(m.table, k.op); }
    }
  }

  function RunAll(m: Machine, ls: seq<Label>): Machine
    requires MachineInv(m)
    decreases |ls|
  {
    if ls == [] then m
    else
      NextInv(m, ls[0]);
      RunAll(Next(m, ls[0]), ls[1..])
  }

  function Commits(m: Machine, ls: seq<Label>): seq<Event>
    requires MachineInv(m)
    decreases |ls|
  {
    if ls == [] then []
    else
      NextInv(m, ls[0]);
      Commit(m, ls[0]) + Commits(Next(m, ls[0]), ls[1..])
  }

  /** Whatever the interleaving, the cores' runs amount to the completed critical
      sections executed one after the other. */
  lemma {:induction false} RunRefines(m: Machine, ls: seq<Label>)
    requires MachineInv(m)
    ensures MachineInv(RunAll(m, ls)) && RunAll(m, ls).table == Run(m.table, Commits(m, ls))
    decreases |ls|
  {
    hide Inside, Exclusive, Watched, Next, Commit;
    if ls != [] {
      NextInv(m, ls[0]);
      StepRefines(m, ls[0]);
      RunRefines(Next(m, ls[0]), ls[1..]);
      RunAppend(m.table, Commit(m, ls[0]), Commits(Next(m, ls[0]), ls[1..]));
    }
  }

  /** At most one core is in a critical section, and whenever the lock is free the
      current task is the one its index designates. */
  lemma MutualExclusion(n: nat, ls: seq<Label>, c: nat, d: nat)
    requires c < n && d < n
    ensures MachineInv(Boot(n))
    ensures var m := RunAll(Boot(n), ls);
            && |m.cores| == n && Sized(m)
            && (InSectionPc(m.cores[c].pc) && InSectionPc(m.cores[d].pc) ==> c == d)
            && (m.lock == 0 && m.current != 0 ==>
                  0 <= m.index < m.num <= MAX_TASKS && m.current == m.slots[m.index])
            && (m.lock == 1 ==> exists h :: 0 <= h < n && Holding(m.cores[h]))
  {
    BootInv(n);
    RunRefines(Boot(n), ls);
    CoreCount(Boot(n), ls);
    var m := RunAll(Boot(n), ls);
    assert m.lock == 0 ==> View(m) == m.table;
    assert 0 <= m.index < m.num ==> m.slots[..m.num][m.index] == m.slots[m.index];
  }

  lemma NextCores(m: Machine, l: Label)
    requires Sized(m)
    ensures |Next(m, l).cores| == |m.cores|
  {
  }

  lemma {:induction false} CoreCount(m: Machine, ls: seq<Label>)
    requires MachineInv(m)
    ensures |RunAll(m, ls).cores| == |m.cores|
    decreases |ls|
  {
    hide Next, Inside, Exclusive, Watched;
    if ls != [] {
      NextInv(m, ls[0]);
      NextCores(m, ls[0]);
      CoreCount(Next(m, ls[0]), ls[1..]);
    }
  }

  lemma {:induction false} YieldsAppend(a: seq<Event>, b: seq<Event>)
    ensures Yields(a + b) == Yields(a) + Yields(b)
  {
    if a == [] {
      assert a + b == b;
    } else {
      assert (a + b)[1..] == a[1..] + b;
      YieldsAppend(a[1..], b);
    }
  }

  /** Bounded waiting on the concurrent machine: from any reachable state with a current
      task, every listed task is current at some point of a run that completes
      MAX_TASKS - 1 yields, on whichever cores and with whatever else in between. */
  lemma {:induction false} ConcurrentWaiting(m: Machine, ls: seq<Label>, t: nat) returns (j: nat)
    requires MachineInv(m) && m.table.current != 0 && t < |m.table.tasks|
    requires Yields(Commits(m, ls)) >= MAX_TASKS - 1 || Yields(Commits(m, ls)) >= Distance(m.table.index, t)
    ensures j <= |ls| && RunAll(m, ls[..j]).table.current == m.table.tasks[t]
    decreases |ls|
  {
    hide Next, Inside, Exclusive, Watched, Commit;
    DistanceBound(m.table, t);
    if m.table.index == t {
      j := 0;
    } else {
      var l := ls[0];
      NextInv(m, l);
      StepRefines(m, l);
      YieldsAppend(Commit(m, l), Commits(Next(m, l), ls[1..]));
      WaitingStep(m, l, t);
      var i := ConcurrentWaiting(Next(m, l), ls[1..], t);
      j := i + 1;
      assert ls[..j][1..] == ls[1..][..i];
    }
  }

  lemma WaitingStep(m: Machine, l: Label, t: nat)
    requires MachineInv(m) && m.table.current != 0 && t < |m.table.tasks| && m.table.index != t
    ensures var s := Next(m, l).table;
            && s.current != 0 && m.table.tasks <= s.tasks
            && Distance(s.index, t) <= Distance(m.table.index, t) - Yields(Commit(m, l))
  {
    hide Next, Inside, Exclusive, Watched, Distance, Apply;
    StepRefines(m, l);
    if Commit(m, l) != [] {
      var e := m.cores[l.c].op;
      assert Commit(m, l) == [e] && e in Commit(m, l);
      OneEvent(m.table, e);
      DistanceStep(m.table, e, t);
      ApplyInv(m.table, e);
      assert [e][1..] == [];
    }
  }

  // ---------------------------------------------------------------- progress

  /** How many more instructions a core that holds the lock executes until it has given it
      back, at most. */
  function Left(k: Core): nat {
    match k.pc
    case TestStore => 5
    case Enter => 4
    case Second => 3
    case Third => 2
    case Unlock(_) => 1
    case _ => 0
  }

  predicate Runs(l: Label, h: nat) { l.Exec? && l.c == h }

  /** The instructions of a run that core h executes. */
  function Own(ls: seq<Label>, h: nat): nat {
    if ls == [] then 0 else Own(ls[1..], h) + if Runs(ls[0], h) then 1 else 0
  }

  /** No step of another core, and no call, moves the holder. */
  lemma OtherStep(m: Machine, l: Label, h: nat)
    requires Sized(m) && h < |m.cores| && Holding(m.cores[h]) && !Runs(l, h)
    ensures h < |Next(m, l).cores|
    ensures Next(m, l).cores[h].pc == m.cores[h].pc && Next(m, l).cores[h].w == m.cores[h].w
  {
    hide FirstWrite, SecondWrite, AfterTests;
    WritesKeep(m, if l.c < |m.cores| then m.cores[l.c].op else Yield);
  }

  /** Every step of the holder but the unlock brings it closer to that. */
  lemma OwnStep(m: Machine, ok: bool, h: nat)
    requires MachineInv(m) && h < |m.cores| && Holding(m.cores[h]) && !m.cores[h].pc.Unlock?
    ensures Sized(m) && h < |Next(m, Exec(h, ok)).cores| && Holding(Next(m, Exec(h, ok)).cores[h])
    ensures Left(Next(m, Exec(h, ok)).cores[h]) < Left(m.cores[h])
  {
    hide MachineInv, Inside, FirstWrite, SecondWrite;
    InvParts(m, h);
    WritesKeep(m, m.cores[h].op);
    match m.cores[h].pc
    case Second => FirstWriteInside(m, h);
    case Third => SecondWriteInside(m, h);
    case _ =>
  }

  lemma UnlockFrees(m: Machine, l: Label, h: nat)
    requires Sized(m) && h < |m.cores| && m.cores[h].pc.Unlock? && Runs(l, h)
    ensures Next(m, l).lock == 0
  {
  }

  /** A core that holds the lock gives it back within five instructions of its own, with any
      number of instructions of other cores in between. */
  lemma {:induction false} HolderUnlocks(m: Machine, ls: seq<Label>, h: nat) returns (j: nat)
    requires MachineInv(m) && h < |m.cores| && Holding(m.cores[h]) && Own(ls, h) >= Left(m.cores[h])
    ensures 0 < j <= |ls| && Own(ls[..j], h) <= Left(m.cores[h]) <= 5
    ensures RunAll(m, ls[..j]).lock == 0
    decreases |ls|
  {
    hide MachineInv, Next;
    var l := ls[0];
    InvParts(m, h);
    NextInv(m, l);
    if Runs(l, h) && m.cores[h].pc.Unlock? {
      j := 1;
      assert ls[..1] == [l] && [l][1..] == [];
      UnlockFrees(m, l, h);
    } else {
      if Runs(l, h) {
        OwnStep(m, l.ok, h);
      } else {
        OtherStep(m, l, h);
      }
      var i := HolderUnlocks(Next(m, l), ls[1..], h);
      j := i + 1;
      assert ls[..j][1..] == ls[1..][..i];
    }
  }

  ghost predicate Releases(m: Machine, ls: seq<Label>)
    requires MachineInv(m)
  {
    exists j :: 0 < j <= |ls| && RunAll(m, ls[..j]).lock == 0
  }

  /** In every reachable state with the lock taken there is a core such that every run in
      which it executes five instructions frees the lock. */
  lemma LockIsGivenBack(m: Machine) returns (h: nat)
    requires MachineInv(m) && m.lock == 1
    ensures h < |m.cores| && Holding(m.cores[h])
    ensures forall ls :: Own(ls, h) >= 5 ==> Releases(m, ls)
  {
    var holder :| 0 <= holder < |m.cores| && Holding(m.cores[holder]);
    h := holder;
    hide MachineInv;
    forall ls | Own(ls, h) >= 5 ensures Releases(m, ls) {
      var j := HolderUnlocks(m, ls, h);
    }
  }

  // ---------------------------------------------------------------- a core on its own

  /** k instructions of core c, no store-exclusive failing without reason. */
  function Solo(c: nat, k: nat): seq<Label> {
    if k == 0 then [] else [Exec(c, true)] + Solo(c, k - 1)
  }

  lemma SoloStep(m: Machine, c: nat, k: nat)
    requires MachineInv(m) && k > 0
    ensures MachineInv(Next(m, Exec(c, true)))
    ensures RunAll(m, Solo(c, k)) == RunAll(Next(m, Exec(c, true)), Solo(c, k - 1))
    ensures Commits(m, Solo(c, k)) == Commit(m, Exec(c, true)) + Commits(Next(m, Exec(c, true)), Solo(c, k - 1))
  {
    hide MachineInv, Next, Commit;
    NextInv(m, Exec(c, true));
    assert Solo(c, k)[1..] == Solo(c, k - 1);
  }

  /** Everything but the core's own registers is as it was. */
  ghost predicate SameShared(m: Machine, m': Machine) {
    && |m'.cores| == |m.cores| && m'.slots == m.slots && m'.num == m.num && m'.index == m.index
    && m'.current == m.current && m'.table == m.table
  }

  /** ldaxr and its test: a free lock leads to the store-exclusive with the monitor set, a
      taken one back to the load. */
  lemma LoadAndTest(m: Machine, c: nat)
    requires MachineInv(m) && c < |m.cores| && m.cores[c].pc.LoadX?
    ensures var m1 := Next(m, Exec(c, true));
            && MachineInv(m1) && Commit(m, Exec(c, true)) == [] && Commit(m1, Exec(c, true)) == []
            && var m2 := Next(m1, Exec(c, true));
            && MachineInv(m2) && SameShared(m, m2) && m2.lock == m.lock && m2.cores[c].op == m.cores[c].op
            && (m.lock == 0 ==> m2.cores[c].pc.StoreX? && m2.cores[c].monitor)
            && (m.lock == 1 ==> m2.cores[c].pc.LoadX?)
  {
    NextInv(m, Exec(c, true));
    NextInv(Next(m, Exec(c, true)), Exec(c, true));
    hide MachineInv, NextIndex, FirstWrite, SecondWrite;
  }

  /** stxr and its test: with the monitor set the core has the lock. */
  lemma StoreAndTest(m: Machine, c: nat)
    requires MachineInv(m) && c < |m.cores| && m.cores[c].pc.StoreX? && m.cores[c].monitor
    ensures var m1 := Next(m, Exec(c, true));
            && MachineInv(m1) && Commit(m, Exec(c, true)) == [] && Commit(m1, Exec(c, true)) == []
            && var m2 := Next(m1, Exec(c, true));
            && MachineInv(m2) && SameShared(m, m2) && m2.lock == 1 && m2.cores[c].op == m.cores[c].op
            && m2.cores[c].pc.Enter?
  {
    NextInv(m, Exec(c, true));
    NextInv(Next(m, Exec(c, true)), Exec(c, true));
    hide MachineInv, NextIndex, FirstWrite, SecondWrite;
  }

  /** A store-exclusive that fails sends the core back to the load. */
  lemma FailedStoreRetries(m: Machine, c: nat)
    requires MachineInv(m) && c < |m.cores| && m.cores[c].pc.StoreX?
    ensures var m1 := Next(m, Exec(c, false));
            && Sized(m1)
            && var m2 := Next(m1, Exec(c, true));
            SameShared(m, m2) && m2.lock == m.lock && m2.cores[c].pc.LoadX? && m2.cores[c].op == m.cores[c].op
  {
  }

  /** A free lock is acquired by four instructions of one core in a row. */
  lemma Acquires(m: Machine, c: nat)
    requires MachineInv(m) && m.lock == 0 && c < |m.cores| && m.cores[c].pc.LoadX?
    ensures var m4 := RunAll(m, Solo(c, 4));
            && MachineInv(m4) && SameShared(m, m4) && m4.lock == 1
            && m4.cores[c].pc.Enter? && m4.cores[c].op == m.cores[c].op
            && Commits(m, Solo(c, 4)) == []
  {
    hide Inside, Exclusive, Watched, Next, Commit;
    var e := Exec(c, true);
    LoadAndTest(m, c);
    var m1 := Next(m, e);
    var m2 := Next(m1, e);
    StoreAndTest(m2, c);
    var m3 := Next(m2, e);
    SoloStep(m, c, 4);
    SoloStep(m1, c, 3);
    SoloStep(m2, c, 2);
    SoloStep(m3, c, 1);
  }

  /** A taken lock keeps a core spinning and changes nothing. */
  lemma Spins(m: Machine, c: nat)
    requires MachineInv(m) && m.lock == 1 && c < |m.cores| && m.cores[c].pc.LoadX?
    ensures var m2 := RunAll(m, Solo(c, 2));
            MachineInv(m2) && SameShared(m, m2) && m2.lock == 1 && m2.cores[c].pc.LoadX?
    ensures Commits(m, Solo(c, 2)) == []
  {
    hide Inside, Exclusive, Watched, Next, Commit;
    LoadAndTest(m, c);
    SoloStep(m, c, 2);
    SoloStep(Next(m, Exec(c, true)), c, 1);
  }

  lemma {:induction false} RunAllAppend(m: Machine, a: seq<Label>, b: seq<Label>)
    requires MachineInv(m)
    ensures MachineInv(RunAll(m, a)) && RunAll(m, a + b) == RunAll(RunAll(m, a), b)
    ensures Commits(m, a + b) == Commits(m, a) + Commits(RunAll(m, a), b)
    decreases |a|
  {
    hide Inside, Exclusive, Watched, Next, Commit;
    if a == [] {
      assert a + b == b;
    } else {
      assert (a + b)[1..] == a[1..] + b;
      NextInv(m, a[0]);
      RunAllAppend(Next(m, a[0]), a[1..], b);
    }
  }

  lemma {:induction false} SoloAppend(c: nat, i: nat, j: nat)
    ensures Solo(c, i + j) == Solo(c, i) + Solo(c, j)
  {
    if i > 0 {
      SoloAppend(c, i - 1, j);
      assert Solo(c, i) + Solo(c, j) == [Exec(c, true)] + (Solo(c, i - 1) + Solo(c, j));
    } else {
      assert [] + Solo(c, j) == Solo(c, j);
    }
  }

  /** Whether sched_schedule goes on to yield. */
  predicate GoesOn(m: Machine, op: Event) { op.Schedule? && m.num > 0 && m.current != 0 }

  /** The unlock: the operation is committed and the core leaves, or goes on to yield. */
  lemma UnlockStep(m: Machine, c: nat)
    requires MachineInv(m) && c < |m.cores| && m.cores[c].pc.Unlock?
    ensures var m1 := Next(m, Exec(c, true));
            && MachineInv(m1) && m1.lock == 0 && |m1.cores| == |m.cores|
            && Commit(m, Exec(c, true)) == [m.cores[c].op]
            && (!m.cores[c].pc.again ==> m1.cores[c].pc.Out?)
            && (m.cores[c].pc.again ==> m1.cores[c].pc.LoadX? && m1.cores[c].op == Yield)
            && m1.num == m.num && m1.current == m.current
  {
    NextInv(m, Exec(c, true));
    hide MachineInv;
  }

  lemma EnterStep(m: Machine, c: nat)
    requires MachineInv(m) && c < |m.cores| && m.cores[c].pc.Enter?
    ensures var m1, op := Next(m, Exec(c, true)), m.cores[c].op;
            && MachineInv(m1) && SameShared(m, m1) && Commit(m, Exec(c, true)) == []
            && m1.cores[c].op == op && (m1.cores[c].pc.Second? || m1.cores[c].pc == Unlock(GoesOn(m, op)))
  {
    NextInv(m, Exec(c, true));
    hide MachineInv;
  }

  lemma WriteSteps(m: Machine, c: nat)
    requires MachineInv(m) && c < |m.cores| && m.cores[c].pc.Second?
    ensures var m1 := Next(m, Exec(c, true));
            && MachineInv(m1) && Commit(m, Exec(c, true)) == [] && Commit(m1, Exec(c, true)) == []
            && var m2 := Next(m1, Exec(c, true));
            && MachineInv(m2) && |m2.cores| == |m.cores|
            && m2.cores[c].pc == Unlock(false) && m2.cores[c].op == m.cores[c].op
            && !GoesOn(m, m.cores[c].op)
  {
    NextInv(m, Exec(c, true));
    var m1 := Next(m, Exec(c, true));
    NextInv(m1, Exec(c, true));
    assert Inside(m, m.cores[c]);
    FirstWriteInside(m, c);
    hide MachineInv, Inside, FirstWrite, SecondWrite;
    WritesKeep(m, m.cores[c].op);
    assert m1.cores[c].pc.Third? && m1.cores[c].op == m.cores[c].op && |m1.cores| == |m.cores|;
    SecondWriteInside(m1, c);
    WritesKeep(m1, m.cores[c].op);
  }

  /** A critical section run on its own commits its operation. */
  lemma SectionAlone(m: Machine, c: nat) returns (k: nat)
    requires MachineInv(m) && c < |m.cores| && m.cores[c].pc.Enter?
    ensures k <= 4 && Commits(m, Solo(c, k)) == [m.cores[c].op]
    ensures var m', goesOn := RunAll(m, Solo(c, k)), GoesOn(m, m.cores[c].op);
            && MachineInv(m') && m'.lock == 0 && |m'.cores| == |m.cores|
            && (!goesOn ==> m'.cores[c].pc.Out?)
            && (goesOn ==> m'.cores[c].pc.LoadX? && m'.cores[c].op == Yield)
  {
    hide Inside, Exclusive, Watched, Next, Commit;
    var e := Exec(c, true);
    EnterStep(m, c);
    var m1 := Next(m, e);
    if m1.cores[c].pc.Unlock? {
      k := 2;
      UnlockStep(m1, c);
      SoloStep(m, c, 2);
      SoloStep(m1, c, 1);
    } else {
      k := 4;
      WriteSteps(m1, c);
      var m2 := Next(m1, e);
      var m3 := Next(m2, e);
      UnlockStep(m3, c);
      SoloStep(m, c, 4);
      SoloStep(m1, c, 3);
      SoloStep(m2, c, 2);
      SoloStep(m3, c, 1);
    }
  }

  /** From the load to the end of the critical section. */
  lemma RoundAlone(m: Machine, c: nat) returns (k: nat)
    requires MachineInv(m) && m.lock == 0 && c < |m.cores| && m.cores[c].pc.LoadX?
    ensures k <= 8 && Commits(m, Solo(c, k)) == [m.cores[c].op]
    ensures var m', goesOn := RunAll(m, Solo(c, k)), GoesOn(m, m.cores[c].op);
            && MachineInv(m') && m'.lock == 0 && |m'.cores| == |m.cores|
            && (!goesOn ==> m'.cores[c].pc.Out?)
            && (goesOn ==> m'.cores[c].pc.LoadX? && m'.cores[c].op == Yield)
  {
    hide MachineInv, Solo, RunAll, Commits;
    Acquires(m, c);
    var i := SectionAlone(RunAll(m, Solo(c, 4)), c);
    k := 4 + i;
    SoloAppend(c, 4, i);
    RunAllAppend(m, Solo(c, 4), Solo(c, i));
  }

  /** With the lock free, a call of core c that runs alone completes: it commits its own
      operation, and the yield that sched_schedule goes on to when a task is current. */
  lemma CallAlone(m: Machine, c: nat, op: Event) returns (k: nat)
    requires MachineInv(m) && m.lock == 0 && c < |m.cores| && m.cores[c].pc.Out? && Proper(op)
    ensures k <= 16
    ensures var ls, done := [Call(c, op)] + Solo(c, k), if GoesOn(m, op) then [op, Yield] else [op];
            && Commits(m, ls) == done
            && var m' := RunAll(m, ls);
            && MachineInv(m') && m'.lock == 0 && m'.table == Run(m.table, done)
            && |m'.cores| == |m.cores| && m'.cores[c].pc.Out?
  {
    var m0 := Next(m, Call(c, op));
    NextInv(m, Call(c, op));
    assert m0.lock == 0 && m0.cores[c].pc.LoadX? && m0.cores[c].op == op && GoesOn(m0, op) == GoesOn(m, op);
    assert |m0.cores| == |m.cores| && Commit(m, Call(c, op)) == [];
    hide Inside, Exclusive, Watched, Solo, Next, Commit, GoesOn;
    k := RoundAlone(m0, c);
    var m1 := RunAll(m0, Solo(c, k));
    if GoesOn(m, op) {
      assert !GoesOn(m1, Yield) by { YieldEnds(m1); }
      var j := RoundAlone(m1, c);
      SoloAppend(c, k, j);
      RunAllAppend(m0, Solo(c, k), Solo(c, j));
      k := k + j;
    }
    var ls := [Call(c, op)] + Solo(c, k);
    assert ls[1..] == Solo(c, k);
    RunRefines(m, ls);
  }

  lemma YieldEnds(m: Machine)
    ensures !GoesOn(m, Yield)
  {
  }
}
