/** The theorems about runs carried to the code: a run executed call by call on the
    device, and a lookup and a read after mounting the device again. */
module FsExec {
  import opened Bytes
  import opened FsLayout
  import opened FsSpec
  import opened FsInv
  import opened FsNames
  import opened FsBytes
  import opened FsRun
  import opened FsRefine
  import opened FsView
  import opened FsDisk

  /** The byte of a file at an offset is byte offset % 4096 of the device block that direct
      block offset / 4096 names; slot k of a directory is entry k % 113 of direct block
      k / 113. The invariant makes every block number that is not 0 a data block. */
  lemma WhereContentsAre(sb: Superblock, disk: seq<Block>, st: FsState, id: nat, o: nat, k: nat)
    requires Fits(sb, disk) && Known(st, id)
    requires forall b: nat :: DataBlock(st, b) ==> b < |disk| && BlockAt(st, b) == disk[b]
    ensures o < 40960 && DataBlock(st, Ino(st, id).direct[o / 4096]) ==>
              var b := Ino(st, id).direct[o / 4096];
              b < |disk| && ByteAt(st, id, o) == Cell(disk[b][o % 4096])
    ensures k < 1130 && DataBlock(st, Ino(st, id).direct[k / 113]) ==>
              var b := Ino(st, id).direct[k / 113];
              b < |disk| && DirSlots(st, id)[k] == EntryIn(disk[b], k % 113)
  {
    hide EntryIn, BlockAt;
  }

  method Call(fs: FileSystem, op: Op) returns (ret: int)
    requires fs.Valid() && Inv(fs.State()) && Legal(fs.State(), op)
    modifies fs`sb, fs.inodeBitmap, fs.blockBitmap, fs.dev
    ensures fs.Valid() && (fs.State(), ret) == Step(old(fs.State()), op)
  {
    hide Inv, View, LoadSuperblock, FileSystem.Wired, FsSpec.Create, FsSpec.Delete, FsSpec.Write;
    match op
    case CreateOp(p, name, kind, mem, lookupMem) => ret := fs.Create(p, name, kind, mem, lookupMem);
    case DeleteOp(p, name, mem, targetMem) => ret := fs.Delete(p, name, mem, targetMem);
    case WriteOp(id, offset, buf, mem) => ret := fs.Write(id, offset, buf, mem);
  }

  lemma RunTail(st: FsState, ops: seq<Op>, i: nat)
    requires Shape(st) && i < |ops| && LegalRun(st, ops[i..])
    ensures var st' := Step(st, ops[i]).0;
            && Legal(st, ops[i]) && LegalRun(st', ops[i + 1..])
            && Run(st, ops[i..]) == Run(st', ops[i + 1..])
            && Returns(st, ops[i..]) == [Step(st, ops[i]).1] + Returns(st', ops[i + 1..])
  {
    hide Step;
    assert ops[i..][1..] == ops[i + 1..];
  }

  /** The calls of a run leave the device in the state of that run and return what it
      returns. */
  method Execute(fs: FileSystem, ops: seq<Op>) returns (rets: seq<int>)
    requires fs.Valid() && Inv(fs.State()) && LegalRun(fs.State(), ops)
    modifies fs`sb, fs.inodeBitmap, fs.blockBitmap, fs.dev
    ensures fs.Valid() && fs.State() == Run(old(fs.State()), ops)
    ensures rets == Returns(old(fs.State()), ops)
  {
    hide Inv, View, LoadSuperblock, FileSystem.Wired, Step, Run, LegalRun, Returns, Legal;
    ghost var st := fs.State();
    rets := [];
    assert ops[0..] == ops;
    var i := 0;
    while i < |ops|
      invariant 0 <= i <= |ops|
      invariant fs.Valid() && Inv(fs.State()) && LegalRun(fs.State(), ops[i..])
      invariant Run(fs.State(), ops[i..]) == Run(st, ops)
      invariant rets + Returns(fs.State(), ops[i..]) == Returns(st, ops)
    {
      RunTail(fs.State(), ops, i);
      StepInv(fs.State(), ops[i]);
      var ret := Call(fs, ops[i]);
      rets := rets + [ret];
      i := i + 1;
    }
    assert ops[i..] == [];
    RunDone(fs.State());
  }

  lemma RunDone(st: FsState)
    requires Shape(st)
    ensures LegalRun(st, []) && Run(st, []) == st && Returns(st, []) == []
  {
  }

  /** Run on a formatted device, mount it again, look a name up and read: the answers are
      those of the simple file system after the same run. */
  method ServeAfterRemount(fs: FileSystem, ops: seq<Op>, p: u32, name: Text, id: u32, offset: u64,
                           buffer: array<Byte>, count: u64)
    returns (again: FileSystem, found: u32, n: int)
    requires fs.Valid() && Formatted(fs.State()) && SoundRun(fs.State(), ops) && LegalRun(fs.State(), ops)
    requires buffer != fs.inodeBitmap && buffer != fs.blockBitmap
    requires var s := Run(fs.State(), ops);
             && MayName(s, p) && LiveFile(s, id)
             && |FsSpec.Read(s, id, offset, count, true).bytes| <= buffer.Length
    modifies fs`sb, fs.inodeBitmap, fs.blockBitmap, fs.dev, buffer
    ensures again.Valid() && again.State() == Run(old(fs.State()), ops)
    ensures var a := SimpleRun(Blank(|old(fs.State()).inodes|), ops, Spaces(old(fs.State()), ops)).0;
            && found == Resolve(a, p, name)
            && 0 <= n <= buffer.Length
            && (offset <= Ino(again.State(), id).size ==> n <= count)
            && (forall x :: 0 <= x < n && (id as nat, Place(offset) + x) in a.bytes ==>
                  buffer[x] == a.bytes[(id as nat, Place(offset) + x)])
            && (forall m: nat :: m <= count && offset < REACH && Written(a, id, offset, m) ==> n >= m)
    ensures buffer[n..] == old(buffer[n..])
  {
    hide Inv, View, LoadSuperblock, FileSystem.Wired, Run, LegalRun, SoundRun, Formatted;
    hide SimpleRun, Spaces, FsSpec.Read, FsSpec.Lookup;
    ghost var st := fs.State();
    FormattedInv(st);
    ReachableInv(st, ops);
    var _ := Execute(fs, ops);
    again := Remount(fs);
    RunAnswers(st, ops, p, name, id, offset, count);
    found := again.Lookup(p, name, true);
    WithinReachIs(offset);
    n := again.Read(id, offset, buffer, count, true);
  }

  lemma WithinReachIs(offset: nat)
    ensures offset < REACH ==> Place(offset) == offset
  {
  }
}
