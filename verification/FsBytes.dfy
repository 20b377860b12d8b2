/** Reads and writes against the simple view of a file: a partial map from offsets
    to bytes, undefined where no block is allocated. */
module FsBytes {
  import opened Bytes
  import opened FsLayout
  import opened FsTree
  import opened FsSpec
  import opened FsInv

  datatype Cell = Hole | Cell(value: Byte)

  /** The byte of a file at an offset. */
  function ByteAt(st: FsState, id: nat, o: nat): Cell
    requires Known(st, id)
  {
    if o / 4096 < NDIRECT && Held(st, id, o / 4096) != 0
    then Cell(BlockAt(st, Held(st, id, o / 4096))[o % 4096])
    else Hole
  }

  /** The first offset whose block number does not fit 32 bits. */
  const REACH := 0x1000_0000_0000

  // ---------------------------------------------------------------- what a file change keeps

  /** A change of one file: the name space and all other inodes keep every byte and
      every attribute, and the file keeps its attributes other than size. */
  ghost predicate OnlyFile(st: FsState, st': FsState, id: nat) {
    && st'.root == st.root && st'.live == st.live && |st'.inodes| == |st.inodes| && st'.reserved == st.reserved
    && Known(st, id) && Attributes(Ino(st', id)) == Attributes(Ino(st, id))
    && (forall y: nat :: Live(st, y) && y != id ==> Ino(st', y) == Ino(st, y))
    && (forall y: nat, o: nat :: Live(st, y) && y != id ==> ByteAt(st', y, o) == ByteAt(st, y, o))
  }

  lemma OnlyFileTrans(s0: FsState, s1: FsState, s2: FsState, id: nat)
    requires OnlyFile(s0, s1, id) && OnlyFile(s1, s2, id)
    ensures OnlyFile(s0, s2, id)
  {
    hide ByteAt, Ino;
    assert forall y: nat :: Live(s1, y) == Live(s0, y);
    forall y: nat, o: nat | Live(s0, y) && y != id ensures ByteAt(s2, y, o) == ByteAt(s0, y, o) {
      assert Live(s1, y);
      assert ByteAt(s1, y, o) == ByteAt(s0, y, o);
    }
  }

  /** Every byte of the file outside the range [lo, hi) that existed is still there. */
  ghost predicate KeepsOutside(st: FsState, st': FsState, id: nat, lo: nat, hi: nat) {
    && Known(st, id) && Known(st', id)
    && forall o: nat :: !(lo <= o < hi) && ByteAt(st, id, o).Cell? ==> ByteAt(st', id, o) == ByteAt(st, id, o)
  }

  // ---------------------------------------------------------------- one turn of the loop

  lemma AttachBytes(st: FsState, id: nat, i: nat)
    requires Shape(st) && Ownership(st) && Live(st, id) && i < NDIRECT && Held(st, id, i) == 0 && BlockFree(st)
    ensures var st' := Attach(st, id, i, BlockAt(st, FirstClear(st.used) + 1));
            && OnlyFile(st, st', id)
            && KeepsOutside(st, st', id, 0, 0)
            && Ino(st', id).size == Ino(st, id).size
  {
    var b := FirstClear(st.used) + 1;
    var st' := Attach(st, id, i, BlockAt(st, b));
    assert st'.data == st.data;
    forall o: nat | ByteAt(st, id, o).Cell? ensures ByteAt(st', id, o) == ByteAt(st, id, o) {
      assert o / 4096 != i;
      assert Held(st', id, o / 4096) == Held(st, id, o / 4096);
    }
  }

  lemma PatchBytes(st: FsState, id: nat, i: nat, pos: nat, bytes: seq<Byte>)
    requires Shape(st) && Ownership(st) && Live(st, id) && i < NDIRECT && Held(st, id, i) != 0
    requires pos + |bytes| <= BLOCK_SIZE
    ensures var b := Held(st, id, i);
            var st' := PutBlock(st, b, Patch(BlockAt(st, b), pos, bytes));
            var at := i * 4096 + pos;
            && OnlyFile(st, st', id)
            && KeepsOutside(st, st', id, at, at + |bytes|)
            && (forall o: nat :: at <= o < at + |bytes| ==> ByteAt(st', id, o) == Cell(bytes[o - at]))
            && Ino(st', id).size == Ino(st, id).size
  {
    var b := Held(st, id, i);
    var patched := Patch(BlockAt(st, b), pos, bytes);
    var st' := PutBlock(st, b, patched);
    var at := i * 4096 + pos;
    assert DataBlock(st, b);
    forall y: nat, o: nat | Live(st, y) && y != id ensures ByteAt(st', y, o) == ByteAt(st, y, o) {
      if o / 4096 < NDIRECT {
        assert Held(st, y, o / 4096) != b;
      }
    }
    forall o: nat | ByteAt(st, id, o).Cell? && !(at <= o < at + |bytes|)
        ensures ByteAt(st', id, o) == ByteAt(st, id, o) {
      if o / 4096 != i {
        assert Held(st, id, o / 4096) != b;
      }
    }
    forall o: nat | at <= o < at + |bytes| ensures ByteAt(st', id, o) == Cell(bytes[o - at]) {
      assert o / 4096 == i && o % 4096 == o - i * 4096;
    }
  }

  /** One turn of the write loop stores its bytes and disturbs nothing else. */
  lemma WriteStepBytes(st: FsState, id: nat, i: nat, pos: nat, bytes: seq<Byte>)
    requires Inv(st) && LiveFile(st, id) && i < NDIRECT && (Held(st, id, i) != 0 || BlockFree(st))
    requires pos + |bytes| <= BLOCK_SIZE
    ensures var st' := WriteStep(st, id, i, pos, bytes);
            var at := i * 4096 + pos;
            && Inv(st') && TreeOf(st') == TreeOf(st) && LiveFile(st', id)
            && OnlyFile(st, st', id)
            && KeepsOutside(st, st', id, at, at + |bytes|)
            && (forall o: nat :: at <= o < at + |bytes| ==> ByteAt(st', id, o) == Cell(bytes[o - at]))
            && Ino(st', id).size == Ino(st, id).size
  {
    hide Ownership, Directories, Forest, TreeOf, BlockAt, PutBlock, ByteAt;
    var b0 := BlockAt(st, FirstClear(st.used) + 1);
    var st1 := if Held(st, id, i) == 0 then Attach(st, id, i, b0) else st;
    if Held(st, id, i) == 0 {
      AttachInv(st, id, i, b0);
      AttachTree(st, id, i, b0);
      AttachBytes(st, id, i);
    }
    assert Inv(st1) && LiveFile(st1, id) && TreeOf(st1) == TreeOf(st) && Held(st1, id, i) != 0;
    var b := Held(st1, id, i);
    PutBlockInv(st1, id, i, Patch(BlockAt(st1, b), pos, bytes));
    PatchBytes(st1, id, i, pos, bytes);
    var st' := PutBlock(st1, b, Patch(BlockAt(st1, b), pos, bytes));
    if Held(st, id, i) == 0 {
      OnlyFileTrans(st, st1, st', id);
    }
  }

  // ---------------------------------------------------------------- offsets

  /** Where an access lands in the file: the 32-bit block number makes offsets that are
      2^44 bytes apart the same. */
  function Place(offset: nat): nat { offset % 0x1000_0000_0000 }

  lemma PlaceOfIndex(at: nat)
    ensures BlockIndex(at) == Place(at) / 4096 && at % 4096 == Place(at) % 4096
  {
    assert at == at / 0x1000_0000_0000 * 0x1000_0000_0000 + Place(at);
    assert at / 4096 == at / 0x1000_0000_0000 * 0x1_0000_0000 + Place(at) / 4096;
  }

  lemma PlaceRepeats(at: nat, k: nat)
    ensures Place(at + k * 0x1000_0000_0000) == Place(at)
  {
    assert at + k * 0x1000_0000_0000 == (at / 0x1000_0000_0000 + k) * 0x1000_0000_0000 + Place(at);
  }

  /** Two sums that wrap at 2^64 have the same place when their first terms do. */
  lemma PlaceOfSum(offset: nat, done: nat)
    ensures Place((offset + done) % U64_LIMIT) == Place((Place(offset) + done) % U64_LIMIT)
  {
    PlaceOfWrapped(offset + done);
    PlaceOfWrapped(Place(offset) + done);
    PlaceRepeats(Place(offset) + done, offset / 0x1000_0000_0000);
  }

  lemma PlaceOfWrapped(at: nat)
    ensures Place(at % U64_LIMIT) == Place(at)
  {
    PlaceRepeats(at % U64_LIMIT, at / U64_LIMIT * 0x10_0000);
  }

  lemma WithinReach(at: nat)
    requires at < REACH
    ensures at % U64_LIMIT == at && BlockIndex(at) == at / 4096 && Place(at) == at
  {
  }

  lemma WithinChunk(at: nat, left: nat, x: nat)
    requires x < Chunk(at, left)
    ensures (at + x) / 4096 == at / 4096 && (at + x) % 4096 == at % 4096 + x
  {
  }

  lemma SameTurn(offset: u64, done: nat)
    ensures var at, at' := (offset + done) % U64_LIMIT, (Place(offset) + done) % U64_LIMIT;
            && BlockIndex(at) == BlockIndex(at') && at % 4096 == at' % 4096
            && forall left: nat :: Chunk(at, left) == Chunk(at', left)
  {
    var at, at' := (offset + done) % U64_LIMIT, (Place(offset) + done) % U64_LIMIT;
    hide Place, BlockIndex;
    PlaceOfSum(offset, done);
    PlaceOfIndex(at);
    PlaceOfIndex(at');
  }

  lemma ChunkStep(at: nat, left: nat)
    requires left > 0
    ensures 0 < Chunk(at, left) <= left && at % 4096 + Chunk(at, left) <= 4096
  {
  }

  /** At every offset the write loop does what it does at the place of that offset. */
  lemma {:induction false} WriteLoopPlace(st: FsState, id: nat, offset: u64, buf: seq<Byte>, done: nat)
    requires Shape(st) && Known(st, id) && done <= |buf| < U64_LIMIT
    ensures WriteLoop(st, id, offset, buf, done) == WriteLoop(st, id, Place(offset), buf, done)
    decreases |buf| - done
  {
    hide WriteStep, BlockFree, BlockIndex, Place;
    if done < |buf| {
      SameTurn(offset, done);
      var at := (offset + done) % U64_LIMIT;
      var i := BlockIndex(at);
      if i < NDIRECT && (Held(st, id, i) != 0 || BlockFree(st)) {
        var n := Chunk(at, |buf| - done);
        WriteLoopPlace(WriteStep(st, id, i, at % 4096, buf[done..done + n]), id, offset, buf, done + n);
      }
    }
  }

  /** The same for the read loop. */
  lemma {:induction false} ReadLoopPlace(st: FsState, d: Direct, offset: u64, count: nat, done: nat)
    requires done <= count
    ensures ReadLoop(st, d, offset, count, done) == ReadLoop(st, d, Place(offset), count, done)
    decreases count - done
  {
    hide BlockAt, BlockIndex, Place, Chunk;
    if done < count {
      SameTurn(offset, done);
      var at := (offset + done) % U64_LIMIT;
      ChunkStep(at, count - done);
      ChunkStep((Place(offset) + done) % U64_LIMIT, count - done);
      if BlockIndex(at) < NDIRECT && d[BlockIndex(at)] != 0 {
        ReadLoopPlace(st, d, offset, count, done + Chunk(at, count - done));
      }
    }
  }

  // ---------------------------------------------------------------- the write loop

  /** The loop keeps the invariant for every offset, even one whose block number is truncated. */
  lemma {:induction false} WriteLoopInv(st: FsState, id: nat, offset: u64, buf: seq<Byte>, done: nat)
    requires Inv(st) && LiveFile(st, id) && done <= |buf| < U64_LIMIT
    ensures var st' := WriteLoop(st, id, offset, buf, done).0;
            Inv(st') && TreeOf(st') == TreeOf(st) && LiveFile(st', id) && OnlyFile(st, st', id)
            && Ino(st', id).size == Ino(st, id).size
    decreases |buf| - done
  {
    hide Inv, TreeOf, ByteAt, OnlyFile, WriteStep;
    var at := (offset + done) % U64_LIMIT;
    var i := BlockIndex(at);
    assert Shape(st) by { InvShape(st); }
    if done == |buf| || i >= NDIRECT || (Held(st, id, i) == 0 && !BlockFree(st)) {
      assert OnlyFile(st, st, id) by { OnlyFileRefl(st, id); }
    } else {
      var n := Chunk(at, |buf| - done);
      var st1 := WriteStep(st, id, i, at % 4096, buf[done..done + n]);
      WriteStepBytes(st, id, i, at % 4096, buf[done..done + n]);
      WriteLoopInv(st1, id, offset, buf, done + n);
      OnlyFileTrans(st, st1, WriteLoop(st, id, offset, buf, done).0, id);
    }
  }

  lemma InvShape(st: FsState)
    requires Inv(st)
    ensures Shape(st)
  {
    hide Forest, TreeOf, Ownership, Directories, Records;
  }

  lemma OnlyFileRefl(st: FsState, id: nat)
    requires Known(st, id)
    ensures OnlyFile(st, st, id)
  {
  }

  ghost predicate Stored(st: FsState, id: nat, offset: nat, buf: seq<Byte>, lo: nat, hi: nat) {
    && Known(st, id) && lo <= hi <= |buf|
    && forall o: nat :: offset + lo <= o < offset + hi ==> ByteAt(st, id, o) == Cell(buf[o - offset])
  }

  lemma StoredLater(s1: FsState, s2: FsState, id: nat, offset: nat, buf: seq<Byte>, lo: nat, mid: nat, hi: nat)
    requires Stored(s1, id, offset, buf, lo, mid) && KeepsOutside(s1, s2, id, offset + mid, offset + hi)
    requires Stored(s2, id, offset, buf, mid, hi)
    ensures Stored(s2, id, offset, buf, lo, hi)
  {
    hide ByteAt;
  }

  lemma KeepsLater(s0: FsState, s1: FsState, s2: FsState, id: nat, lo: nat, mid: nat, hi: nat)
    requires lo <= mid <= hi && KeepsOutside(s0, s1, id, lo, mid) && KeepsOutside(s1, s2, id, mid, hi)
    ensures KeepsOutside(s0, s2, id, lo, hi)
  {
    hide ByteAt;
    forall o: nat | !(lo <= o < hi) && ByteAt(s0, id, o).Cell? ensures ByteAt(s2, id, o) == ByteAt(s0, id, o) {
      assert ByteAt(s1, id, o) == ByteAt(s0, id, o);
    }
  }

  lemma WriteLoopUnfold(st: FsState, id: nat, offset: u64, buf: seq<Byte>, done: nat)
    requires Shape(st) && Known(st, id) && done < |buf| < U64_LIMIT && offset + done < REACH
    ensures var at := offset + done;
            WriteLoop(st, id, offset, buf, done) ==
            if at / 4096 >= NDIRECT || (Held(st, id, at / 4096) == 0 && !BlockFree(st)) then (st, done)
            else
              var n := Chunk(at, |buf| - done);
              WriteLoop(WriteStep(st, id, at / 4096, at % 4096, buf[done..done + n]), id, offset, buf, done + n)
  {
    hide WriteStep, BlockIndex;
    WithinReach(offset + done);
  }

  /** One turn of the loop at the place it has reached. */
  lemma WriteTurn(st: FsState, id: nat, i: nat, pos: nat, offset: nat, buf: seq<Byte>, done: nat, n: nat)
    requires Inv(st) && LiveFile(st, id) && i < NDIRECT && (Held(st, id, i) != 0 || BlockFree(st))
    requires done + n <= |buf| && pos + n <= 4096 && i * 4096 + pos == offset + done
    ensures Shape(st)
    ensures var st' := WriteStep(st, id, i, pos, buf[done..done + n]);
            && Inv(st') && LiveFile(st', id) && KeepsOutside(st, st', id, offset + done, offset + done + n)
            && Stored(st', id, offset, buf, done, done + n)
  {
    hide Inv, TreeOf, ByteAt, OnlyFile, WriteStep, BlockFree, KeepsOutside;
    InvShape(st);
    WriteStepBytes(st, id, i, pos, buf[done..done + n]);
  }

  lemma LiveFileIsKnown(st: FsState, id: nat)
    requires LiveFile(st, id)
    ensures Known(st, id)
  {
  }

  lemma StoredNothing(st: FsState, id: nat, offset: nat, buf: seq<Byte>, done: nat)
    requires Known(st, id) && done <= |buf|
    ensures Stored(st, id, offset, buf, done, done)
  {
  }

  /** The loop stores a prefix of what remains and stops early only at the end of the
      direct blocks or on a full disk. */
  lemma {:induction false} WriteLoopBytes(st: FsState, id: nat, offset: u64, buf: seq<Byte>, done: nat)
    requires Inv(st) && LiveFile(st, id) && done <= |buf| < U64_LIMIT && offset + done < REACH
    ensures var (st', n) := WriteLoop(st, id, offset, buf, done);
            && Known(st', id) && (n == done || offset + n <= 40960)
            && KeepsOutside(st, st', id, offset + done, offset + n)
            && Stored(st', id, offset, buf, done, n)
            && (n < |buf| ==> (offset + n) / 4096 >= NDIRECT ||
                              (Held(st', id, (offset + n) / 4096) == 0 && !BlockFree(st')))
    decreases |buf| - done
  {
    hide Inv, WriteStep, WriteLoop, BlockFree, KeepsOutside, Stored, LiveFile;
    InvShape(st);
    LiveFileIsKnown(st, id);
    KeepsAll(st, id, offset + done);
    StoredNothing(st, id, offset, buf, done);
    if done == |buf| {
      WriteLoopDone(st, id, offset, buf);
    } else {
      var at := offset + done;
      var i := at / 4096;
      WriteLoopUnfold(st, id, offset, buf, done);
      if i < NDIRECT && (Held(st, id, i) != 0 || BlockFree(st)) {
        var n := Chunk(at, |buf| - done);
        var st1 := WriteStep(st, id, i, at % 4096, buf[done..done + n]);
        WriteTurn(st, id, i, at % 4096, offset, buf, done, n);
        WriteLoopBytes(st1, id, offset, buf, done + n);
        var (st', m) := WriteLoop(st1, id, offset, buf, done + n);
        StoredLater(st1, st', id, offset, buf, done, done + n, m);
        KeepsLater(st, st1, st', id, offset + done, offset + done + n, offset + m);
      }
    }
  }

  lemma KeepsAll(st: FsState, id: nat, at: nat)
    requires Known(st, id)
    ensures KeepsOutside(st, st, id, at, at)
  {
  }

  lemma WriteLoopDone(st: FsState, id: nat, offset: u64, buf: seq<Byte>)
    requires Shape(st) && Known(st, id) && |buf| < U64_LIMIT
    ensures WriteLoop(st, id, offset, buf, |buf|) == (st, |buf|)
  {
  }

  // ---------------------------------------------------------------- fs_write

  lemma WriteInv(st: FsState, id: nat, offset: u64, buf: seq<Byte>, mem: bool)
    requires Inv(st) && (Known(st, id) ==> Live(st, id)) && |buf| < U64_LIMIT
    ensures Inv(Write(st, id, offset, buf, mem).0)
    ensures TreeOf(Write(st, id, offset, buf, mem).0) == TreeOf(st)
    ensures Known(st, id) ==> OnlyFile(st, Write(st, id, offset, buf, mem).0, id)
  {
    hide Inv, TreeOf, ByteAt, OnlyFile, WriteLoop, SetSize;
    assert Shape(st) by { InvShape(st); }
    if Known(st, id) {
      OnlyFileRefl(st, id);
    }
    if Known(st, id) && mem && IsFile(Ino(st, id)) {
      WriteLoopInv(st, id, offset, buf, 0);
      var (st1, n) := WriteLoop(st, id, offset, buf, 0);
      var finish := (offset + n) % U64_LIMIT;
      if finish > Ino(st1, id).size {
        SetSizeInv(st1, id, finish);
        SetSizeBytes(st1, id, finish);
        OnlyFileTrans(st, st1, SetSize(st1, id, finish), id);
      }
    }
  }

  lemma SetSizeBytes(st: FsState, id: nat, size: u64)
    requires Shape(st) && Live(st, id)
    ensures OnlyFile(st, SetSize(st, id, size), id)
    ensures forall o: nat :: ByteAt(SetSize(st, id, size), id, o) == ByteAt(st, id, o)
    ensures Ino(SetSize(st, id, size), id) == Ino(st, id).(size := size)
  {
  }

  /** fs_write at any offset reports how many bytes it stored; those bytes are then in
      the file at the place of the offset, all other bytes of the file are kept, and a
      short count means the direct blocks or the disk ran out. */
  lemma WriteLands(st: FsState, id: nat, offset: u64, buf: seq<Byte>)
    requires Inv(st) && LiveFile(st, id) && |buf| < U64_LIMIT
    ensures var (st', n) := Write(st, id, offset, buf, true);
            var at := Place(offset);
            && 0 <= n <= |buf| && Known(st', id) && (n == 0 || at + n <= 40960)
            && Stored(st', id, at, buf, 0, n)
            && KeepsOutside(st, st', id, at, at + n)
            && Ino(st', id).size == (if offset + n > Ino(st, id).size then offset + n else Ino(st, id).size)
            && (n < |buf| ==> (at + n) / 4096 >= NDIRECT ||
                              (Held(st', id, (at + n) / 4096) == 0 && !BlockFree(st')))
  {
    hide Inv, TreeOf, ByteAt, OnlyFile, WriteLoop, SetSize, Stored, KeepsOutside;
    assert Shape(st) by { InvShape(st); }
    var at := Place(offset);
    WriteLoopPlace(st, id, offset, buf, 0);
    WriteLoopInv(st, id, at, buf, 0);
    WriteLoopBytes(st, id, at, buf, 0);
    var (st1, n) := WriteLoop(st, id, at, buf, 0);
    NoWrap(offset, n);
    if offset + n > Ino(st1, id).size {
      InvShape(st1);
      SetSizeBytes(st1, id, offset + n);
      SetSizeBlocks(st1, id, offset + n);
      SameBytesStored(st1, SetSize(st1, id, offset + n), id, at, buf, n);
      SameBytesKept(st, st1, SetSize(st1, id, offset + n), id, at, at + n);
    }
  }

  lemma NoWrap(offset: u64, n: nat)
    requires n == 0 || Place(offset) + n <= 40960
    ensures offset + n < U64_LIMIT
  {
    assert offset == offset / 0x1000_0000_0000 * 0x1000_0000_0000 + Place(offset);
    assert offset / 0x1000_0000_0000 <= 0xF_FFFF;
  }

  lemma SameBytesStored(st: FsState, st': FsState, id: nat, at: nat, buf: seq<Byte>, n: nat)
    requires Stored(st, id, at, buf, 0, n) && Known(st', id)
    requires forall o: nat :: ByteAt(st', id, o) == ByteAt(st, id, o)
    ensures Stored(st', id, at, buf, 0, n)
  {
    hide ByteAt;
  }

  lemma SameBytesKept(s0: FsState, st: FsState, st': FsState, id: nat, lo: nat, hi: nat)
    requires KeepsOutside(s0, st, id, lo, hi) && Known(st', id)
    requires forall o: nat :: ByteAt(st', id, o) == ByteAt(st, id, o)
    ensures KeepsOutside(s0, st', id, lo, hi)
  {
    hide ByteAt;
  }

  /** Nothing can be stored at the offsets whose block number is truncated. */
  lemma BeyondReachIsHole(st: FsState, id: nat, o: nat)
    requires Known(st, id) && o >= REACH
    ensures ByteAt(st, id, o) == Hole
  {
  }

  /** When a write reports at least one byte, those bytes are in the file at their offsets
      exactly when the offset is below 2^44. Below it, everything else is kept. */
  lemma WriteStores(st: FsState, id: nat, offset: u64, buf: seq<Byte>)
    requires Inv(st) && LiveFile(st, id) && |buf| < U64_LIMIT
    ensures var (st', n) := Write(st, id, offset, buf, true);
            && 0 <= n <= |buf| && Known(st', id)
            && (n > 0 ==> (Stored(st', id, offset, buf, 0, n) <==> offset < REACH))
            && (n > 0 && offset >= REACH ==>
                  ByteAt(st', id, offset) == Hole && ByteAt(st', id, Place(offset)) == Cell(buf[0]))
            && (offset < REACH ==> KeepsOutside(st, st', id, offset, offset + n))
            && Ino(st', id).size == (if offset + n > Ino(st, id).size then offset + n else Ino(st, id).size)
            && (n < |buf| ==> (Place(offset) + n) / 4096 >= NDIRECT ||
                              (Held(st', id, (Place(offset) + n) / 4096) == 0 && !BlockFree(st')))
  {
    hide Inv, ByteAt, Write, KeepsOutside;
    InvShape(st);
    WriteLands(st, id, offset, buf);
    var (st', n) := Write(st, id, offset, buf, true);
    if offset >= REACH {
      BeyondReachIsHole(st', id, offset);
    }
  }

  /** The loss that this means: a byte written at x is replaced by a write at any higher
      offset with the same place, and a read at x returns the second byte. */
  lemma OverwrittenFromAfar(st: FsState, id: nat, x: u64, k: nat, first: Byte, second: Byte)
    requires Inv(st) && LiveFile(st, id) && x < REACH && x + k * 0x1000_0000_0000 < U64_LIMIT
    requires Write(st, id, x, [first], true).1 == 1
    ensures var st1 := Write(st, id, x, [first], true).0;
            var (st2, n) := Write(st1, id, x + k * 0x1000_0000_0000, [second], true);
            && n == 1
            && Read(st1, id, x, 1, true) == Bytes([first])
            && Read(st2, id, x, 1, true) == Bytes([second])
  {
    hide Inv, ByteAt, Write, Read, TreeOf, KeepsOutside, Place;
    InvShape(st);
    var far := x + k * 0x1000_0000_0000;
    var st1 := Write(st, id, x, [first], true).0;
    WithinReach(x);
    PlaceRepeats(x, k);
    WriteInv(st, id, x, [first], true);
    WriteLands(st, id, x, [first]);
    InvShape(st1);
    var (st2, n) := Write(st1, id, far, [second], true);
    WriteInv(st1, id, far, [second], true);
    WriteLands(st1, id, far, [second]);
    assert ByteAt(st1, id, x) == Cell(first);
    assert n == 1 by {
      CellIsHeld(st1, st2, id, x, n);
    }
    assert ByteAt(st2, id, x) == Cell(second);
    ReadOne(st1, id, x, first);
    ReadOne(st2, id, x, second);
  }

  lemma SetSizeBlocks(st: FsState, id: nat, size: u64)
    requires Shape(st) && Known(st, id)
    ensures SetSize(st, id, size).used == st.used
  {
  }

  // ---------------------------------------------------------------- fs_read

  ghost predicate Delivered(st: FsState, id: nat, from: nat, r: seq<Byte>) {
    Known(st, id) && forall x: nat :: x < |r| ==> ByteAt(st, id, from + x) == Cell(r[x])
  }

  lemma DeliveredAppend(st: FsState, id: nat, from: nat, head: seq<Byte>, tail: seq<Byte>)
    requires Delivered(st, id, from, head) && Delivered(st, id, from + |head|, tail)
    ensures Delivered(st, id, from, head + tail)
  {
    hide ByteAt;
    forall x: nat | x < |head + tail| ensures ByteAt(st, id, from + x) == Cell((head + tail)[x]) {
      if x >= |head| {
        assert from + x == from + |head| + (x - |head|);
        assert (head + tail)[x] == tail[x - |head|];
      }
    }
  }

  lemma HeadDelivered(st: FsState, id: nat, at: nat, left: nat)
    requires Known(st, id) && at / 4096 < NDIRECT && Held(st, id, at / 4096) != 0
    ensures Delivered(st, id, at, BlockAt(st, Held(st, id, at / 4096))[at % 4096..at % 4096 + Chunk(at, left)])
  {
    var head := BlockAt(st, Held(st, id, at / 4096))[at % 4096..at % 4096 + Chunk(at, left)];
    forall x: nat | x < |head| ensures ByteAt(st, id, at + x) == Cell(head[x]) {
      WithinChunk(at, left, x);
    }
  }

  lemma ReadLoopUnfold(st: FsState, id: nat, offset: u64, count: nat, done: nat)
    requires Known(st, id) && done < count && offset + done < REACH
    ensures var at, d := offset + done, Ino(st, id).direct;
            ReadLoop(st, d, offset, count, done) ==
            if at / 4096 >= NDIRECT || Held(st, id, at / 4096) == 0 then []
            else
              var n := Chunk(at, count - done);
              BlockAt(st, Held(st, id, at / 4096))[at % 4096..at % 4096 + n] + ReadLoop(st, d, offset, count, done + n)
  {
    hide BlockIndex, BlockAt;
    WithinReach(offset + done);
  }

  lemma ReadLoopDone(st: FsState, d: Direct, offset: u64, count: nat)
    ensures ReadLoop(st, d, offset, count, count) == []
  {
  }

  lemma NothingDelivered(st: FsState, id: nat, at: nat)
    requires Known(st, id)
    ensures Delivered(st, id, at, [])
    ensures at / 4096 >= NDIRECT || Held(st, id, at / 4096) == 0 ==> ByteAt(st, id, at) == Hole
  {
  }

  lemma {:induction false} ReadLoopBytes(st: FsState, id: nat, offset: u64, count: nat, done: nat)
    requires Known(st, id) && done <= count && offset + done < REACH
    ensures var r := ReadLoop(st, Ino(st, id).direct, offset, count, done);
            && Delivered(st, id, offset + done, r)
            && (done + |r| < count ==> ByteAt(st, id, offset + done + |r|) == Hole)
    decreases count - done
  {
    hide ReadLoop, BlockAt, ByteAt, Delivered;
    var d, at := Ino(st, id).direct, offset + done;
    NothingDelivered(st, id, at);
    if done == count {
      ReadLoopDone(st, d, offset, count);
    } else {
      ReadLoopUnfold(st, id, offset, count, done);
      if at / 4096 < NDIRECT && Held(st, id, at / 4096) != 0 {
        var n := Chunk(at, count - done);
        HeadDelivered(st, id, at, count - done);
        ReadLoopBytes(st, id, offset, count, done + n);
        DeliveredAppend(st, id, at, BlockAt(st, Held(st, id, at / 4096))[at % 4096..at % 4096 + n],
                        ReadLoop(st, d, offset, count, done + n));
      }
    }
  }

  /** fs_read at any offset delivers the bytes of the file from the place of the offset
      on, up to the clamped count or the first missing block, whichever comes first. */
  lemma ReadLands(st: FsState, id: nat, offset: u64, count: u64)
    requires LiveFile(st, id)
    ensures var r := Read(st, id, offset, count, true);
            var want := Clamp(Ino(st, id).size, offset, count);
            && r.Bytes? && |r.bytes| <= want
            && Delivered(st, id, Place(offset), r.bytes)
            && (|r.bytes| < want ==> ByteAt(st, id, Place(offset) + |r.bytes|) == Hole)
  {
    hide ReadLoop, ByteAt, Delivered, Clamp;
    var want := Clamp(Ino(st, id).size, offset, count);
    ReadLoopPlace(st, Ino(st, id).direct, offset, want, 0);
    ReadLoopBytes(st, id, Place(offset), want, 0);
  }

  /** fs_read is refused exactly without memory for its copy or for what is no regular file. */
  lemma ReadRefusedIff(st: FsState, id: nat, offset: u64, count: u64, mem: bool)
    requires Inv(st) && (Known(st, id) ==> Live(st, id))
    ensures Read(st, id, offset, count, mem).Refused? <==> !(mem && Live(st, id) && Ino(st, id).kind == 0x8000)
  {
    hide Ownership, Directories, Forest, TreeOf, ReadLoop;
  }

  /** The clamp exceeds the count exactly when the subtraction wraps and the sum does not;
      it misses the end of the file exactly when the sum wraps. */
  lemma ClampIs(size: u64, offset: u64, count: u64)
    ensures Clamp(size, offset, count) > count <==> offset > size && offset + count < U64_LIMIT
    ensures offset <= size ==>
            Clamp(size, offset, count) == if offset + count < U64_LIMIT then Min(count, size - offset) else count
  {
  }

  /** fs_read with an offset that is not beyond the end delivers the bytes of the file
      from there, up to the count, the end of the file or the first missing block. */
  lemma ReadDelivers(st: FsState, id: nat, offset: u64, count: u64)
    requires LiveFile(st, id) && offset <= Ino(st, id).size
    ensures var r := Read(st, id, offset, count, true);
            var want := if offset + count < U64_LIMIT then Min(count, Ino(st, id).size - offset) else count;
            && r.Bytes? && |r.bytes| <= want
            && Delivered(st, id, Place(offset), r.bytes)
            && (|r.bytes| < want ==> ByteAt(st, id, Place(offset) + |r.bytes|) == Hole)
  {
    hide Read, ByteAt, Delivered, Clamp, Place;
    ReadLands(st, id, offset, count);
    ClampIs(Ino(st, id).size, offset, count);
  }

  /** The blocks of the file hold every byte of the range [lo, hi). */
  ghost predicate NoHole(st: FsState, id: nat, lo: nat, hi: nat)
    requires Known(st, id)
  {
    forall o: nat :: lo <= o < hi ==> ByteAt(st, id, o).Cell?
  }

  /** A read delivers more than m bytes exactly when it asks for more and the blocks of
      the file hold that many. */
  lemma ReadLongerIff(st: FsState, id: nat, offset: u64, count: u64, m: nat)
    requires LiveFile(st, id)
    ensures |Read(st, id, offset, count, true).bytes| > m <==>
            Clamp(Ino(st, id).size, offset, count) > m && NoHole(st, id, Place(offset), Place(offset) + m + 1)
  {
    hide Read, ByteAt, Clamp, Place;
    ReadLands(st, id, offset, count);
    var r, at := Read(st, id, offset, count, true).bytes, Place(offset);
    if |r| > m {
      forall o: nat | at <= o < at + m + 1 ensures ByteAt(st, id, o).Cell? {
        assert ByteAt(st, id, at + (o - at)) == Cell(r[o - at]);
      }
    }
  }

  /** fs_read stores more than count bytes into the caller's buffer exactly when the
      offset is beyond the end of the file, the sum does not wrap and the blocks of the
      file hold count + 1 bytes from there. */
  lemma ReadOverrunsIff(st: FsState, id: nat, offset: u64, count: u64)
    requires LiveFile(st, id)
    ensures |Read(st, id, offset, count, true).bytes| > count <==>
            && offset > Ino(st, id).size && offset + count < U64_LIMIT
            && NoHole(st, id, Place(offset), Place(offset) + count + 1)
  {
    hide Read, NoHole, Clamp, Place;
    ReadLongerIff(st, id, offset, count, count);
    ClampIs(Ino(st, id).size, offset, count);
  }

  /** The bytes of a file of the given size that lie behind an offset. */
  function Rest(size: nat, offset: nat): nat { if offset <= size then size - offset else 0 }

  /** fs_read delivers bytes behind the end of the file exactly when the offset is beyond
      the end or offset + count wraps, and the blocks of the file go on behind its end. */
  lemma ReadPastEndIff(st: FsState, id: nat, offset: u64, count: u64)
    requires LiveFile(st, id)
    ensures var rest := Rest(Ino(st, id).size, offset);
            |Read(st, id, offset, count, true).bytes| > rest <==>
            && (offset > Ino(st, id).size || offset + count >= U64_LIMIT)
            && NoHole(st, id, Place(offset), Place(offset) + rest + 1)
  {
    hide Read, NoHole, Place;
    ReadLongerIff(st, id, offset, count, Rest(Ino(st, id).size, offset));
    ClampIs(Ino(st, id).size, offset, count);
  }

  lemma ReadOne(st: FsState, id: nat, x: u64, b: Byte)
    requires LiveFile(st, id) && x < REACH && x < Ino(st, id).size && ByteAt(st, id, x) == Cell(b)
    ensures Read(st, id, x, 1, true) == Bytes([b])
  {
    hide Read, ByteAt;
    ReadDelivers(st, id, x, 1);
    WithinReach(x);
    assert ByteAt(st, id, x + 0) == Cell(b);
  }

  /** A write that meets an allocated block stores something. */
  lemma CellIsHeld(st: FsState, st': FsState, id: nat, x: nat, n: nat)
    requires Known(st, id) && Known(st', id) && ByteAt(st, id, x).Cell?
    requires n == 0 ==> KeepsOutside(st, st', id, x, x + n)
    requires n < 1 ==> (x + n) / 4096 >= NDIRECT || Held(st', id, (x + n) / 4096) == 0
    ensures n >= 1
  {
  }

  /** Reading back the bytes that a write reported returns exactly those bytes, at every
      offset. */
  lemma ReadAfterWrite(st: FsState, id: nat, offset: u64, buf: seq<Byte>)
    requires Inv(st) && LiveFile(st, id) && |buf| < U64_LIMIT
    ensures var (st', n) := Write(st, id, offset, buf, true);
            && 0 <= n <= |buf|
            && Read(st', id, offset, n, true) == Bytes(buf[..n])
  {
    hide Inv, ByteAt, Read, Write, TreeOf, KeepsOutside, Clamp, Place;
    assert Shape(st) by { InvShape(st); }
    var (st', n) := Write(st, id, offset, buf, true);
    var at := Place(offset);
    WriteLands(st, id, offset, buf);
    WriteInv(st, id, offset, buf, true);
    assert LiveFile(st', id);
    ClampIs(Ino(st', id).size, offset, n);
    ReadLands(st', id, offset, n);
    var r := Read(st', id, offset, n, true).bytes;
    assert forall o: nat :: at <= o < at + n ==> ByteAt(st', id, o).Cell?;
    forall x: nat | x < n ensures r[x] == buf[x] {
      assert ByteAt(st', id, at + x) == Cell(buf[x]);
    }
    assert r == buf[..n];
  }
}
