/** The file system as it runs: a device of 4096-byte blocks, the superblock and the
    two bitmaps in memory, every operation a sequence of block reads, patches and
    write-backs. Each method is proved to compute the value-level operation. */
module FsDisk {
  import opened Wrappers
  import opened Bytes
  import opened CLib
  import opened FsLayout
  import opened FsTree
  import opened FsSpec
  import opened FsInv
  import opened FsNames
  import opened FsBytes
  import opened FsView

  class FileSystem {
    const dev: array<Block>
    var ready: bool
    var sb: Superblock
    var inodeBitmap: array<Byte>
    var blockBitmap: array<Byte>

    ghost predicate Wired()
      reads this
    {
      && ready && inodeBitmap != blockBitmap
      && inodeBitmap.Length == BLOCK_SIZE && blockBitmap.Length == BLOCK_SIZE
      && Geometry(sb) && dev.Length > sb.totalBlocks
    }

    /** Everything but the free counters has been written through to the device. */
    ghost predicate Valid()
      reads this, dev, inodeBitmap, blockBitmap
    {
      && Wired()
      && sb.magic == MAGIC
      && SameLayout(LoadSuperblock(dev[0][..SUPERBLOCK_SIZE]), sb)
      && dev[sb.inodeBitmapBlock] == inodeBitmap[..]
      && dev[sb.blockBitmapBlock] == blockBitmap[..]
    }

    ghost function State(): (st: FsState)
      requires Wired()
      reads this, dev, inodeBitmap, blockBitmap
      ensures Shape(st) && |st.inodes| == sb.totalInodes && |st.used| == sb.totalBlocks
      ensures st.reserved == sb.dataStart && st.root == sb.root
    {
      View(sb, dev[..], inodeBitmap[..], blockBitmap[..])
    }

    // -------------------------------------------------------------- fs_init

    /** `readOk` says whether the first read of block 0 succeeded; the code formats the
        disk when it did not and mounts what it finds when it did. `buffer` is what the
        superblock buffer holds after a failed read. */
    constructor Init(device: array<Block>, readOk: bool, buffer: Block)
      requires device.Length > 0
      requires !readOk ==> device.Length > 1024
      requires readOk && OnDisk(device[..]).magic == MAGIC ==> Fits(OnDisk(device[..]), device[..])
      modifies device
      ensures dev == device && fresh(inodeBitmap) && fresh(blockBitmap)
      ensures !readOk ==> Valid() && Formatted(State())
      ensures !readOk ==> |State().inodes| == 128 && |State().used| == 1024 && State().reserved == 6
      ensures !readOk ==> sb.freeBlocks == 1011 && sb.freeInodes == 127
      ensures readOk ==> device[..] == old(device[..]) && (ready <==> OnDisk(device[..]).magic == MAGIC)
      ensures readOk && ready ==> Valid() && State() == MountedState(device[..])
    {
      dev := device;
      ready := false;
      inodeBitmap := new Byte[BLOCK_SIZE](_ => 0);
      blockBitmap := new Byte[BLOCK_SIZE](_ => 0);
      new;
      hide Formatted, View, LoadSuperblock, Geometry;
      if !readOk {
        Format(buffer);
      } else {
        Load();
      }
    }

    /** The mount branch: superblock and bitmaps are read back from the device. */
    method Load()
      requires dev.Length > 0 && inodeBitmap != blockBitmap
      requires inodeBitmap.Length == BLOCK_SIZE && blockBitmap.Length == BLOCK_SIZE && !ready
      requires OnDisk(dev[..]).magic == MAGIC ==> Fits(OnDisk(dev[..]), dev[..])
      modifies this, inodeBitmap, blockBitmap
      ensures inodeBitmap == old(inodeBitmap) && blockBitmap == old(blockBitmap)
      ensures ready <==> OnDisk(dev[..]).magic == MAGIC
      ensures ready ==> Valid() && State() == MountedState(dev[..])
    {
      hide LoadSuperblock, View;
      sb := LoadSuperblock(dev[0][..SUPERBLOCK_SIZE]);
      if sb.magic != MAGIC {
        return;
      }
      LoadInto(inodeBitmap, dev[sb.inodeBitmapBlock]);
      LoadInto(blockBitmap, dev[sb.blockBitmapBlock]);
      ready := true;
    }

    method Format(buffer: Block)
      requires dev.Length > 1024 && inodeBitmap != blockBitmap
      requires inodeBitmap.Length == BLOCK_SIZE && blockBitmap.Length == BLOCK_SIZE
      requires forall k :: 0 <= k < BLOCK_SIZE ==> inodeBitmap[k] == 0 && blockBitmap[k] == 0
      modifies this, dev, inodeBitmap, blockBitmap
      ensures inodeBitmap == old(inodeBitmap) && blockBitmap == old(blockBitmap)
      ensures Valid() && Formatted(State())
      ensures |State().inodes| == 128 && |State().used| == 1024 && State().reserved == 6
      ensures sb.freeBlocks == 1011 && sb.freeInodes == 127
    {
      hide InodeIn, PutInodeIn, LoadSuperblock, View, Bit, Formatted, LayoutFor, StoreSuperblock;
      sb := FormatSuperblock();
      dev[0] := Patch(buffer, 0, StoreSuperblock(sb));
      ReservePrefix(blockBitmap, sb.dataStart);
      sb := sb.(freeBlocks := (sb.freeBlocks - (sb.dataStart + 1)) % U32_LIMIT);
      dev[sb.inodeBitmapBlock] := inodeBitmap[..];
      dev[sb.blockBitmapBlock] := blockBitmap[..];
      var id := TakeFirstBit(inodeBitmap, sb.totalInodes);
      sb := sb.(freeInodes := (sb.freeInodes - 1) % U32_LIMIT);
      dev[sb.inodeBitmapBlock] := inodeBitmap[..];
      var root := FreshInode(id, TYPE_DIR, 0x1ED);
      InodeInPut(dev[sb.inodeTableStart], 0, root, 0);
      dev[sb.inodeTableStart] := PutInodeIn(dev[sb.inodeTableStart], 0, root);
      sb := sb.(root := id);
      dev[0] := Patch(buffer, 0, StoreSuperblock(sb));
      SuperblockOnDisk(buffer, sb);
      ready := true;
      FormattedView(sb, dev[..], inodeBitmap[..], blockBitmap[..]);
    }

    // -------------------------------------------------------------- inode records

    method GetInode(id: u32, mem: bool) returns (r: Option<Inode>)
      requires Valid()
      ensures r == if Known(State(), id) && mem then Some(Ino(State(), id)) else None
    {
      hide InodeIn, LoadSuperblock, Bits, DataOn;
      if id == 0 || id > sb.totalInodes {
        return None;
      }
      var blockOffset := (id - 1) / 46;
      var slot := (id - 1) % 46;
      TableInside(sb, id);
      var buffer := dev[sb.inodeTableStart + blockOffset];
      if !mem {
        return None;
      }
      r := Some(InodeIn(buffer, slot));
    }

    method WriteInode(id: u32, inode: Inode) returns (ret: int)
      requires Valid()
      modifies dev
      ensures Valid()
      ensures ret == if Known(old(State()), id) then 0 else -1
      ensures State() == if Known(old(State()), id) then SetInode(old(State()), id, inode) else old(State())
    {
      hide InodeIn, PutInodeIn, View, SetInode;
      if id == 0 || id > sb.totalInodes {
        return -1;
      }
      var blockOffset := (id - 1) / 46;
      var slot := (id - 1) % 46;
      TableInside(sb, id);
      ViewWriteInode(sb, dev[..], inodeBitmap[..], blockBitmap[..], id, inode);
      var b := sb.inodeTableStart + blockOffset;
      var buffer := dev[b];
      buffer := PutInodeIn(buffer, slot, inode);
      dev[b] := buffer;
      assert dev[..] == old(dev[..])[b := buffer];
      ret := 0;
    }

    // -------------------------------------------------------------- bitmaps

    method WriteBlockBitmap()
      requires Wired() && sb.magic == MAGIC && dev[sb.inodeBitmapBlock] == inodeBitmap[..]
      requires SameLayout(LoadSuperblock(dev[0][..SUPERBLOCK_SIZE]), sb)
      modifies dev
      ensures Valid() && State() == old(State())
    {
      var b := sb.blockBitmapBlock;
      ViewReserved(sb, dev[..], b, blockBitmap[..]);
      dev[b] := blockBitmap[..];
      assert dev[..] == old(dev[..])[b := blockBitmap[..]];
    }

    method WriteInodeBitmap()
      requires Wired() && sb.magic == MAGIC && dev[sb.blockBitmapBlock] == blockBitmap[..]
      requires SameLayout(LoadSuperblock(dev[0][..SUPERBLOCK_SIZE]), sb)
      modifies dev
      ensures Valid() && State() == old(State())
    {
      var b := sb.inodeBitmapBlock;
      ViewReserved(sb, dev[..], b, inodeBitmap[..]);
      dev[b] := inodeBitmap[..];
      assert dev[..] == old(dev[..])[b := inodeBitmap[..]];
    }

    method SetInodeBit(i: nat, on: bool)
      requires Valid() && i < sb.totalInodes
      modifies inodeBitmap, dev
      ensures Valid() && State() == SetLive(old(State()), i + 1, on)
    {
      hide InodesOn, DataOn, Bits;
      BitsPutBit(inodeBitmap[..], sb.totalInodes, i, on);
      ghost var was := inodeBitmap[..];
      inodeBitmap[i / 8] := ByteWithBit(inodeBitmap[i / 8], i % 8, on);
      assert inodeBitmap[..] == PutBit(was, i, on);
      WriteInodeBitmap();
    }

    method SetBlockBit(i: nat, on: bool)
      requires Valid() && i < sb.totalBlocks
      modifies blockBitmap, dev
      ensures Valid() && State() == SetUsed(old(State()), i + 1, on)
    {
      hide InodesOn, DataOn, Bits;
      BitsPutBit(blockBitmap[..], sb.totalBlocks, i, on);
      ghost var was := blockBitmap[..];
      blockBitmap[i / 8] := ByteWithBit(blockBitmap[i / 8], i % 8, on);
      assert blockBitmap[..] == PutBit(was, i, on);
      WriteBlockBitmap();
    }

    method SetFree(blocks: u32, inodes: u32)
      requires Valid()
      modifies this`sb
      ensures Valid() && State() == old(State()) && SameLayout(old(sb), sb)
      ensures sb.freeBlocks == blocks && sb.freeInodes == inodes
    {
      hide View, LoadSuperblock;
      ghost var was := sb;
      sb := sb.(freeBlocks := blocks, freeInodes := inodes);
      ViewLayout(was, sb, dev[..], inodeBitmap[..], blockBitmap[..]);
    }

    method AllocateInode() returns (id: u32)
      requires Valid()
      modifies this`sb, inodeBitmap, dev
      ensures Valid() && SameLayout(old(sb), sb)
      ensures if InodeFree(old(State()))
              then id == FirstClear(old(State()).live) + 1 && State() == SetLive(old(State()), id, true)
              else id == 0 && State() == old(State())
      ensures sb.freeBlocks == old(sb.freeBlocks)
      ensures sb.freeInodes == if id == 0 then old(sb.freeInodes) else (old(sb.freeInodes) - 1) % U32_LIMIT
    {
      hide LoadSuperblock, InodesOn, DataOn, Bits;
      var i := FindClearBit(inodeBitmap, sb.totalInodes);
      if i == sb.totalInodes {
        return 0;
      }
      SetInodeBit(i, true);
      SetFree(sb.freeBlocks, (sb.freeInodes - 1) % U32_LIMIT);
      id := i + 1;
    }

    method FreeInode(id: u32)
      requires Valid()
      modifies this`sb, inodeBitmap, dev
      ensures Valid() && SameLayout(old(sb), sb)
      ensures State() == if Known(old(State()), id) then SetLive(old(State()), id, false) else old(State())
      ensures sb.freeBlocks == old(sb.freeBlocks)
      ensures sb.freeInodes == (old(sb.freeInodes) + if Known(old(State()), id) then 1 else 0) % U32_LIMIT
    {
      hide LoadSuperblock, InodesOn, DataOn, Bits;
      if id == 0 || id > sb.totalInodes {
        return;
      }
      SetInodeBit(id - 1, false);
      SetFree(sb.freeBlocks, (sb.freeInodes + 1) % U32_LIMIT);
    }

    method AllocateBlock() returns (b: u32)
      requires Valid()
      modifies this`sb, blockBitmap, dev
      ensures Valid() && SameLayout(old(sb), sb)
      ensures if BlockFree(old(State()))
              then b == FirstClear(old(State()).used) + 1 && State() == SetUsed(old(State()), b, true)
              else b == 0 && State() == old(State())
      ensures sb.freeInodes == old(sb.freeInodes)
      ensures sb.freeBlocks == if b == 0 then old(sb.freeBlocks) else (old(sb.freeBlocks) - 1) % U32_LIMIT
    {
      hide LoadSuperblock, InodesOn, DataOn, Bits;
      var i := FindClearBit(blockBitmap, sb.totalBlocks);
      if i == sb.totalBlocks {
        return 0;
      }
      SetBlockBit(i, true);
      SetFree((sb.freeBlocks - 1) % U32_LIMIT, sb.freeInodes);
      b := i + 1;
    }

    method FreeBlock(b: u32)
      requires Valid()
      modifies this`sb, blockBitmap, dev
      ensures Valid() && SameLayout(old(sb), sb)
      ensures State() == if 1 <= b <= |old(State()).used| then SetUsed(old(State()), b, false) else old(State())
      ensures sb.freeInodes == old(sb.freeInodes)
      ensures sb.freeBlocks == (old(sb.freeBlocks) + if 1 <= b <= |old(State()).used| then 1 else 0) % U32_LIMIT
    {
      hide LoadSuperblock, InodesOn, DataOn, Bits;
      if b == 0 || b > sb.totalBlocks {
        return;
      }
      SetBlockBit(b - 1, false);
      SetFree((sb.freeBlocks + 1) % U32_LIMIT, sb.freeInodes);
    }

    // -------------------------------------------------------------- data blocks

    method WriteDataBlock(b: u32, blk: Block)
      requires Valid() && DataBlock(State(), b)
      modifies dev
      ensures Valid() && State() == PutBlock(old(State()), b, blk)
      ensures forall c :: 0 <= c < dev.Length && c != b ==> dev[c] == old(dev[c])
    {
      ViewPutBlock(sb, dev[..], inodeBitmap[..], blockBitmap[..], b, blk);
      dev[b] := blk;
      assert dev[..] == old(dev[..])[b := blk];
    }

    // -------------------------------------------------------------- names

    method Lookup(p: u32, name: Text, mem: bool) returns (id: u32)
      requires Valid() && Inv(State()) && MayName(State(), p)
      ensures id == FsSpec.Lookup(State(), p, name, mem)
    {
      hide Inv, View, LoadSuperblock, Find, FirstMatch, DirSlots, EntryIn, CString;
      CStringEnds(name);
      var len := StrLen(name + [0]);
      if len > MAX_NAME {
        return 0;
      }
      var r := GetInode(p, mem);
      if r.None? || !IsDir(r.value) {
        return 0;
      }
      var k := FindEntry(p, r.value.direct, name);
      FindAt(DirSlots(State(), p), name, k);
      if k < SLOTS {
        id := EntryIn(dev[r.value.direct[BlockOfSlot(k)]], EntryOfSlot(k)).inode;
      } else {
        id := 0;
      }
    }

    /** fs_create: its checks, then the inode and the entry. */
    method Create(p: u32, name: Text, kind: u16, mem: bool, lookupMem: bool) returns (id: u32)
      requires Valid() && Inv(State()) && MayName(State(), p) && IsKind(kind)
      modifies this`sb, inodeBitmap, blockBitmap, dev
      ensures Valid() && SameLayout(old(sb), sb)
      ensures (State(), id as nat) == FsSpec.Create(old(State()), p, name, kind, mem, lookupMem)
    {
      hide Inv, View, LoadSuperblock, FsSpec.Lookup, CString, Link, HasRoom, AddInode, RawOf, Wired,
           FreshInode, InodeFree;
      CStringEnds(name);
      var len := StrLen(name + [0]);
      if len > MAX_NAME {
        return 0;
      }
      var r := GetInode(p, mem);
      if r.None? || !IsDir(r.value) {
        return 0;
      }
      var found := this.Lookup(p, name, lookupMem);
      if found != 0 {
        return 0;
      }
      id := AddNamed(p, r.value, name, kind);
    }

    /** The part of fs_create after its checks: the new inode, then its entry. */
    method AddNamed(p: u32, parent: Inode, name: Text, kind: u16) returns (id: u32)
      requires Valid() && Inv(State()) && IsKind(kind) && |name| <= MAX_NAME
      requires LiveDir(State(), p) && parent == Ino(State(), p)
      modifies this`sb, inodeBitmap, blockBitmap, dev
      ensures Valid() && SameLayout(old(sb), sb)
      ensures !InodeFree(old(State())) ==> id == 0 && State() == old(State())
      ensures InodeFree(old(State())) ==>
        var st1 := AddInode(old(State()), kind);
        && id == FirstClear(old(State()).live) + 1
        && Known(st1, p)
        && State() == if HasRoom(st1, p) then Link(st1, p, Entry(id, RawOf(name))) else st1
    {
      hide Inv, View, LoadSuperblock, CString, Link, HasRoom, AddInode, RawOf, Wired, FreshInode, InodeFree;
      ghost var st := State();
      id := NewInode(kind);
      if id == 0 {
        return;
      }
      AddInodeInv(st, kind);
      AddInodeKeepsDir(st, kind, p);
      var raw := MakeRaw(name);
      LinkEntry(p, parent, Entry(id, raw));
    }

    /** allocate_inode and the zeroed record of the new inode. */
    method NewInode(kind: u16) returns (id: u32)
      requires Valid()
      modifies this`sb, inodeBitmap, dev
      ensures Valid() && SameLayout(old(sb), sb)
      ensures if InodeFree(old(State()))
              then id == FirstClear(old(State()).live) + 1 && State() == AddInode(old(State()), kind)
              else id == 0 && State() == old(State())
    {
      hide View, LoadSuperblock, SetInode, SetLive, AddInode, Wired;
      ghost var st := State();
      id := AllocateInode();
      if id == 0 {
        return;
      }
      var ret := WriteInode(id, FreshInode(id, kind, 0x1A4));
      AddInodeInTwo(st, kind);
    }

    /** The nested loop of fs_create: the first free slot takes the entry. */
    method LinkEntry(p: u32, parent: Inode, e: Entry)
      requires Valid() && Inv(State()) && LiveDir(State(), p) && parent == Ino(State(), p)
      modifies this`sb, blockBitmap, dev
      ensures Valid() && SameLayout(old(sb), sb)
      ensures State() == if HasRoom(old(State()), p) then Link(old(State()), p, e) else old(State())
    {
      hide Inv, View, LoadSuperblock, DirSlots, EntryIn, PutEntryIn, Link, BlockFree, SetInode, SetUsed, PutBlock;
      ghost var st, es := State(), DirSlots(State(), p);
      var d := parent.direct;
      var i := 0;
      while i < NDIRECT
        invariant 0 <= i <= NDIRECT
        invariant Valid() && sb == old(sb) && State() == st
        invariant forall m: nat :: m < 113 * i ==> es[m].inode != 0
      {
        DirBlock(st, p, i);
        if d[i] == 0 {
          assert es[113 * i].inode == 0;
          FirstFreeIs(es, 113 * i);
          SlotNumber(i, 0);
          LinkInNewBlock(p, parent, i, e);
          return;
        }
        BlockAtView(sb, dev[..], inodeBitmap[..], blockBitmap[..], d[i]);
        var buffer := dev[d[i]];
        var j := FindFree(buffer);
        assert forall m: nat :: 113 * i <= m < 113 * i + j ==> es[m] == EntryIn(buffer, m - 113 * i);
        if j < 113 {
          assert es[113 * i + j] == EntryIn(buffer, j);
          FirstFreeIs(es, 113 * i + j);
          SlotNumber(i, j);
          buffer := PutEntryIn(buffer, j, e);
          WriteDataBlock(d[i], buffer);
          var ret := WriteInode(p, parent.(size := (parent.size + ENTRY_SIZE) % U64_LIMIT));
          LinkOldBlock(st, p, e);
          return;
        }
        i := i + 1;
      }
      FirstFreeIs(es, SLOTS);
    }

    method Delete(p: u32, name: Text, mem: bool, targetMem: bool) returns (ret: int)
      requires Valid() && Inv(State()) && MayName(State(), p)
      modifies this`sb, inodeBitmap, blockBitmap, dev
      ensures Valid() && SameLayout(old(sb), sb)
      ensures (State(), ret) == FsSpec.Delete(old(State()), p, name, mem, targetMem)
    {
      hide Inv, View, LoadSuperblock, CString, DirSlots, EntryIn, FirstMatch, FillSlot, Reclaim, Wired,
           PutBlock, SetInode;
      ghost var st := State();
      CStringEnds(name);
      var len := StrLen(name + [0]);
      if len > MAX_NAME {
        return -1;
      }
      var r := GetInode(p, mem);
      if r.None? || !IsDir(r.value) {
        return -1;
      }
      var k := FindEntry(p, r.value.direct, name);
      if k == SLOTS {
        return -1;
      }
      SlotAt(st, p, k);
      var target := UnlinkEntry(p, r.value, k);
      DeleteTarget(st, p, name);
      UnlinkInv(st, p, name);
      var t := GetInode(target, targetMem);
      if t.None? {
        return -1;
      }
      ReclaimInode(target, t.value.direct);
      ret := 0;
    }

    /** Clear slot k of the directory and shrink its size. */
    method UnlinkEntry(p: u32, parent: Inode, k: nat) returns (target: u32)
      requires Valid() && Known(State(), p) && parent == Ino(State(), p)
      requires k < SLOTS && DataBlock(State(), parent.direct[BlockOfSlot(k)])
      modifies dev
      ensures Valid()
      ensures target == SlotOf(old(State()), parent.direct, k).inode
      ensures State() == FillSlot(old(State()), p, k, NO_ENTRY, -ENTRY_SIZE)
    {
      hide View, LoadSuperblock, EntryIn, StoreEntry, BlockAt, SetInode, PutBlock;
      var b := parent.direct[BlockOfSlot(k)];
      BlockAtView(sb, dev[..], inodeBitmap[..], blockBitmap[..], b);
      var buffer := dev[b];
      target := EntryIn(buffer, EntryOfSlot(k)).inode;
      StoreNoEntry();
      buffer := Patch(buffer, EntryOfSlot(k) * 36, Zeros(ENTRY_SIZE));
      WriteDataBlock(b, buffer);
      var ret := WriteInode(p, parent.(size := (parent.size - ENTRY_SIZE) % U64_LIMIT));
    }

    /** Free every block of an inode, then the inode. */
    method ReclaimInode(id: u32, d: Direct)
      requires Valid() && Known(State(), id) && d == Ino(State(), id).direct
      modifies this`sb, inodeBitmap, blockBitmap, dev
      ensures Valid() && SameLayout(old(sb), sb)
      ensures State() == Reclaim(old(State()), id)
    {
      hide View, LoadSuperblock, SetUsed, SetLive, Reclaim, Wired;
      ghost var st := State();
      FreedNone(st, d);
      var i := 0;
      while i < NDIRECT
        invariant 0 <= i <= NDIRECT
        invariant Valid() && SameLayout(old(sb), sb) && State() == Freed(st, d, i)
      {
        FreedNext(st, d, i);
        if d[i] != 0 {
          FreeBlock(d[i]);
        }
        i := i + 1;
      }
      FreedAll(st, id, d);
      FreeInode(id);
    }

    // -------------------------------------------------------------- bytes

    /** fs_read into the caller's buffer, which must hold what arrives: ReadOverrunsIff says
        when that is more than count. The return value counts the bytes delivered. */
    method Read(id: u32, offset: u64, buffer: array<Byte>, count: u64, mem: bool) returns (n: int)
      requires Valid() && Inv(State()) && MayName(State(), id)
      requires buffer != inodeBitmap && buffer != blockBitmap
      requires FsSpec.Read(State(), id, offset, count, mem).Bytes? ==>
               |FsSpec.Read(State(), id, offset, count, mem).bytes| <= buffer.Length
      modifies buffer
      ensures Valid() && State() == old(State())
      ensures match FsSpec.Read(old(State()), id, offset, count, mem)
              case Refused => n == -1 && buffer[..] == old(buffer[..])
              case Bytes(bytes) => n == |bytes| && buffer[..n] == bytes && buffer[n..] == old(buffer[n..])
    {
      hide Inv, View, LoadSuperblock, Geometry, ReadLoop, SameLayout, Wired, Mapped;
      ghost var st := State();
      var r := GetInode(id, mem);
      if r.None? || !IsFile(r.value) {
        return -1;
      }
      var size := r.value.size;
      var want := count;
      if (offset + want) % U64_LIMIT > size {
        want := (size - offset) % U64_LIMIT;
      }
      assert want == Clamp(size, offset, count);
      InodeMapped(st, id);
      n := ReadInto(r.value.direct, offset, buffer, want);
    }

    method ReadInto(d: Direct, offset: u64, buffer: array<Byte>, want: u64) returns (done: nat)
      requires Valid() && Mapped(State(), d)
      requires buffer != inodeBitmap && buffer != blockBitmap
      requires |ReadLoop(State(), d, offset, want, 0)| <= buffer.Length
      modifies buffer
      ensures Valid() && State() == old(State())
      ensures done <= want && done <= buffer.Length && buffer[..done] == ReadLoop(old(State()), d, offset, want, 0)
      ensures buffer[done..] == old(buffer[done..])
    {
      hide View, LoadSuperblock, SameLayout, BlockIndex, Chunk, ReadLoop, BlockAt;
      ghost var st := State();
      ghost var all := ReadLoop(st, d, offset, want, 0);
      done := 0;
      while done < want
        invariant 0 <= done <= want && done <= buffer.Length
        invariant Valid() && State() == st
        invariant buffer[..done] + ReadLoop(st, d, offset, want, done) == all
        invariant buffer[done..] == old(buffer[done..])
      {
        var at := (offset + done) % U64_LIMIT;
        var i := BlockIndex(at);
        ReadLoopOnce(st, d, offset, want, done);
        if i >= NDIRECT || d[i] == 0 {
          break;
        }
        BlockAtView(sb, dev[..], inodeBitmap[..], blockBitmap[..], d[i]);
        var block := dev[d[i]];
        var n := Chunk(at, want - done);
        Joins(buffer[..], done, block[at % 4096..at % 4096 + n], ReadLoop(st, d, offset, want, done + n));
        MemCpy(buffer, done, block, at % 4096, n);
        done := done + n;
      }
      ReadLoopStops(st, d, offset, want, done);
    }

    method Write(id: u32, offset: u64, data: seq<Byte>, mem: bool) returns (ret: int)
      requires Valid() && Inv(State()) && MayName(State(), id) && |data| < U64_LIMIT
      modifies this`sb, blockBitmap, dev
      ensures Valid() && SameLayout(old(sb), sb)
      ensures (State(), ret) == FsSpec.Write(old(State()), id, offset, data, mem)
    {
      hide Inv, View, LoadSuperblock, Wired, WriteLoop, WriteStep, SetInode, OnlyFile;
      ghost var st := State();
      var r := GetInode(id, mem);
      if r.None? || !IsFile(r.value) {
        return -1;
      }
      var inode := r.value;
      var done := 0;
      while done < |data|
        invariant 0 <= done <= |data|
        invariant Valid() && SameLayout(old(sb), sb) && Inv(State()) && LiveFile(State(), id)
        invariant inode == Ino(State(), id)
        invariant WriteLoop(State(), id, offset, data, done) == WriteLoop(st, id, offset, data, 0)
      {
        ghost var st1 := State();
        var at := (offset + done) % U64_LIMIT;
        var i := BlockIndex(at);
        WriteLoopOnce(st1, id, offset, data, done);
        if i >= NDIRECT {
          break;
        }
        var n := Chunk(at, |data| - done);
        var ok;
        ok, inode := WriteChunk(id, inode, i, at % 4096, data[done..done + n]);
        if !ok {
          break;
        }
        WriteStepBytes(st1, id, i, at % 4096, data[done..done + n]);
        done := done + n;
      }
      WriteLoopStops(State(), id, offset, data, done);
      var finish := (offset + done) % U64_LIMIT;
      if finish > inode.size {
        var _ := WriteInode(id, inode.(size := finish));
      }
      ret := done;
    }

    /** One turn of the write loop; not ok when a block was needed and none is free. */
    method WriteChunk(id: u32, inode: Inode, i: nat, pos: nat, bytes: seq<Byte>) returns (ok: bool, inode': Inode)
      requires Valid() && Inv(State()) && LiveFile(State(), id) && inode == Ino(State(), id)
      requires i < NDIRECT && pos + |bytes| <= BLOCK_SIZE
      modifies this`sb, blockBitmap, dev
      ensures Valid() && SameLayout(old(sb), sb)
      ensures ok <==> inode.direct[i] != 0 || BlockFree(old(State()))
      ensures ok ==> State() == WriteStep(old(State()), id, i, pos, bytes)
      ensures !ok ==> State() == old(State())
      ensures Known(State(), id) && inode' == Ino(State(), id)
    {
      hide Inv, View, LoadSuperblock, SetUsed, SetInode, Attach, BlockAt, PutBlock, BlockFree;
      ghost var st := State();
      var b := inode.direct[i];
      inode' := inode;
      if b == 0 {
        b, inode' := AttachBlock(id, inode, i);
        if b == 0 {
          return false, inode;
        }
        FreeBlockIsData(st);
        AttachInTwo(st, id, i);
      } else {
        HeldIsData(st, id, i);
      }
      BlockAtView(sb, dev[..], inodeBitmap[..], blockBitmap[..], b);
      var buffer := dev[b];
      buffer := Patch(buffer, pos, bytes);
      PutBlockKeepsInodes(State(), b, buffer);
      WriteDataBlock(b, buffer);
      ok := true;
    }

    /** Take a block with the bytes it holds and record it in the inode; 0 when none is free. */
    method AttachBlock(id: u32, inode: Inode, i: nat) returns (b: u32, inode': Inode)
      requires Valid() && Known(State(), id) && inode == Ino(State(), id) && i < NDIRECT
      modifies this`sb, blockBitmap, dev
      ensures Valid() && SameLayout(old(sb), sb)
      ensures if BlockFree(old(State()))
              then b == FirstClear(old(State()).used) + 1 && inode' == inode.(direct := inode.direct[i := b])
                   && State() == Attach(old(State()), id, i, BlockAt(old(State()), b))
              else b == 0 && inode' == inode && State() == old(State())
    {
      hide View, LoadSuperblock, SetUsed, SetInode, Attach, BlockAt, Wired, SameLayout, Geometry;
      ghost var st := State();
      inode' := inode;
      b := AllocateBlock();
      if b == 0 {
        return;
      }
      SetUsedKeeps(st, b);
      inode' := inode.(direct := inode.direct[i := b]);
      var _ := WriteInode(id, inode');
      AttachInTwo(st, id, i);
    }

    /** The case where the first free slot lies in a block that is not allocated yet. */
    method LinkInNewBlock(p: u32, parent: Inode, i: nat, e: Entry)
      requires Valid() && Inv(State()) && Known(State(), p) && parent == Ino(State(), p)
      requires FreeSlot(State(), p) < SLOTS && BlockOfSlot(FreeSlot(State(), p)) == i
      requires EntryOfSlot(FreeSlot(State(), p)) == 0 && parent.direct[i] == 0
      modifies this`sb, blockBitmap, dev
      ensures Valid() && SameLayout(old(sb), sb)
      ensures State() == if HasRoom(old(State()), p) then Link(old(State()), p, e) else old(State())
    {
      hide Inv, View, LoadSuperblock, FreeSlot, EntryIn, PutEntryIn, Link, BlockFree, SetInode, SetUsed, PutBlock;
      ghost var st := State();
      var b := AllocateBlock();
      if b == 0 {
        return;
      }
      FreeBlockIsData(st);
      var buffer: Block := Zeros(BLOCK_SIZE);
      var j := FindFree(buffer);
      EntryInZeros(0);
      assert j == 0;
      buffer := PutEntryIn(buffer, j, e);
      WriteDataBlock(b, buffer);
      var size := (parent.size + ENTRY_SIZE) % U64_LIMIT;
      var ret := WriteInode(p, parent.(direct := parent.direct[i := b], size := size));
      LinkNewBlock(st, p, e);
    }

    /** The scan shared by lookup and delete: the first slot that shows the name. */
    method FindEntry(p: u32, d: Direct, name: Text) returns (k: nat)
      requires Valid() && Inv(State()) && LiveDir(State(), p) && d == Ino(State(), p).direct
      ensures k == FirstMatch(DirSlots(State(), p), name) && k <= SLOTS
      ensures k < SLOTS ==> DataBlock(State(), d[BlockOfSlot(k)])
      ensures k < SLOTS ==> DirSlots(State(), p)[k] == EntryIn(dev[d[BlockOfSlot(k)]], EntryOfSlot(k))
    {
      hide Inv, View, LoadSuperblock, DirSlots, EntryIn;
      ghost var st, es := State(), DirSlots(State(), p);
      var i := 0;
      while i < NDIRECT
        invariant 0 <= i <= NDIRECT
        invariant forall m: nat :: m < 113 * i ==> !Shows(es[m], name)
      {
        DirBlock(st, p, i);
        if d[i] != 0 {
          BlockAtView(sb, dev[..], inodeBitmap[..], blockBitmap[..], d[i]);
          var buffer := dev[d[i]];
          var j := FindNamed(buffer, name);
          if j < 113 {
            assert forall m: nat :: 113 * i <= m < 113 * i + j ==> es[m] == EntryIn(buffer, m - 113 * i);
            FirstMatchIs(es, name, 113 * i + j);
            SlotNumber(i, j);
            return 113 * i + j;
          }
        }
        assert forall m: nat :: 113 * i <= m < 113 * i + 113 ==> !Shows(es[m], name);
        i := i + 1;
      }
      NoMatch(es, name);
      k := SLOTS;
    }
  }

  // ---------------------------------------------------------------- format and mount

  /** The geometry fs_init computes for a fresh disk of 1024 blocks and 128 inodes. */
  function FormatSuperblock(): (sb: Superblock)
    ensures sb.totalBlocks == 1024 && sb.totalInodes == 128 && sb.magic == 0xDEADBEEF && sb.blockSize == 4096
    ensures sb.inodeBitmapBlock == 1 && sb.blockBitmapBlock == 2 && sb.inodeTableStart == 3 && sb.dataStart == 6
    ensures sb.freeInodes == 128 && sb.freeBlocks == 1018
  {
    LayoutFor(1024, 128)
  }

  function OnDisk(disk: seq<Block>): Superblock
    requires |disk| > 0
  {
    LoadSuperblock(disk[0][..SUPERBLOCK_SIZE])
  }

  /** The file system a disk holds, from its blocks alone. */
  function MountedState(disk: seq<Block>): FsState
    requires |disk| > 0 && Fits(OnDisk(disk), disk)
  {
    View(OnDisk(disk), disk, disk[OnDisk(disk).inodeBitmapBlock], disk[OnDisk(disk).blockBitmapBlock])
  }

  lemma FormattedView(sb: Superblock, disk: seq<Block>, ibm: Block, bbm: Block)
    requires Fits(sb, disk) && sb.root == 1
    requires InodeIn(disk[sb.inodeTableStart], 0) == FreshInode(1, TYPE_DIR, 0x1ED)
    requires forall n: nat :: n < 8 * BLOCK_SIZE ==> Bit(ibm, n) == (n == 0)
    requires forall n: nat :: n < 8 * BLOCK_SIZE ==> Bit(bbm, n) == (n <= sb.dataStart)
    ensures Formatted(View(sb, disk, ibm, bbm))
  {
    hide InodeIn, Bit, FreshInode;
    assert InodesOn(sb, disk)[0] == InodeOn(sb, disk, 1);
  }

  method LoadInto(bitmap: array<Byte>, block: Block)
    requires bitmap.Length == BLOCK_SIZE
    modifies bitmap
    ensures bitmap[..] == block
  {
    MemCpy(bitmap, 0, block, 0, BLOCK_SIZE);
    assert block[0..BLOCK_SIZE] == block;
  }

  /** Unmounting and mounting again after any completed operation gives the same
      state, so every later lookup and read answers as it would have. */
  method Remount(fs: FileSystem) returns (again: FileSystem)
    requires fs.Valid()
    modifies fs.dev
    ensures again.dev == fs.dev && fs.dev[..] == old(fs.dev[..])
    ensures fresh(again) && fresh(again.inodeBitmap) && fresh(again.blockBitmap)
    ensures again.Valid() && again.State() == old(fs.State())
  {
    hide LoadSuperblock, View;
    assert Fits(OnDisk(fs.dev[..]), fs.dev[..]);
    ViewLayout(fs.sb, OnDisk(fs.dev[..]), fs.dev[..], fs.inodeBitmap[..], fs.blockBitmap[..]);
    again := new FileSystem.Init(fs.dev, true, Zeros(BLOCK_SIZE));
  }

  lemma SuperblockOnDisk(buffer: Block, sb: Superblock)
    ensures LoadSuperblock(Patch(buffer, 0, StoreSuperblock(sb))[..SUPERBLOCK_SIZE]) == sb
  {
    SuperblockRoundTrip(sb);
    assert Patch(buffer, 0, StoreSuperblock(sb))[..SUPERBLOCK_SIZE] == StoreSuperblock(sb);
  }

  /** Mark bits 0..last in a zeroed bitmap. */
  method ReservePrefix(bitmap: array<Byte>, last: nat)
    requires bitmap.Length == BLOCK_SIZE && last < 8 * BLOCK_SIZE && forall k :: 0 <= k < BLOCK_SIZE ==> bitmap[k] == 0
    modifies bitmap
    ensures forall n: nat :: n < 8 * BLOCK_SIZE ==> Bit(bitmap[..], n) == (n <= last)
  {
    forall n: nat | n < 8 * BLOCK_SIZE ensures !Bit(bitmap[..], n) {
      BitOfZero(n % 8);
    }
    var i := 0;
    while i <= last
      invariant 0 <= i <= last + 1
      invariant forall n: nat :: n < 8 * BLOCK_SIZE ==> Bit(bitmap[..], n) == (n < i)
    {
      ghost var was := bitmap[..];
      bitmap[i / 8] := ByteWithBit(bitmap[i / 8], i % 8, true);
      assert bitmap[..] == PutBit(was, i, true);
      forall n: nat | n < 8 * BLOCK_SIZE ensures Bit(bitmap[..], n) == (n < i + 1) {
        BitPutBit(was, i, true, n);
      }
      i := i + 1;
    }
  }

  /** allocate_inode on the zeroed bitmap. */
  method TakeFirstBit(bitmap: array<Byte>, n: nat) returns (id: nat)
    requires bitmap.Length == BLOCK_SIZE && 0 < n <= 8 * BLOCK_SIZE
    requires forall k :: 0 <= k < BLOCK_SIZE ==> bitmap[k] == 0
    modifies bitmap
    ensures id == 1
    ensures forall k: nat :: k < 8 * BLOCK_SIZE ==> Bit(bitmap[..], k) == (k == 0)
  {
    forall k: nat | k < 8 * BLOCK_SIZE ensures !Bit(bitmap[..], k) {
      BitOfZero(k % 8);
    }
    var i := FindClearBit(bitmap, n);
    assert Bits(bitmap[..], n)[0] == Bit(bitmap[..], 0);
    assert i == 0;
    ghost var was := bitmap[..];
    bitmap[i / 8] := ByteWithBit(bitmap[i / 8], i % 8, true);
    assert bitmap[..] == PutBit(was, i, true);
    forall k: nat | k < 8 * BLOCK_SIZE ensures Bit(bitmap[..], k) == (k == 0) {
      BitPutBit(was, i, true, k);
    }
    id := i + 1;
  }

  lemma BitPutBit(bitmap: seq<Byte>, i: nat, on: bool, j: nat)
    requires i < 8 * |bitmap| && j < 8 * |bitmap|
    ensures Bit(PutBit(bitmap, i, on), j) == if j == i then on else Bit(bitmap, j)
  {
    BitOfWithBit(bitmap[i / 8], i % 8, on, j % 8);
    assert j / 8 == i / 8 && j % 8 == i % 8 ==> j == i;
  }

  method FindClearBit(bitmap: array<Byte>, n: nat) returns (i: nat)
    requires n <= 8 * bitmap.Length
    ensures i == FirstClear(Bits(bitmap[..], n)) && i <= n
  {
    ghost var bits := Bits(bitmap[..], n);
    i := 0;
    while i < n
      invariant 0 <= i <= n
      invariant forall k :: 0 <= k < i ==> bits[k]
    {
      assert bits[i] == Bit(bitmap[..], i);
      if !BitOf(bitmap[i / 8], i % 8) {
        FirstClearIs(bits, i);
        return;
      }
      i := i + 1;
    }
    FirstClearIs(bits, i);
  }

  // ---------------------------------------------------------------- scanning one block

  method FindNamed(buffer: Block, name: Text) returns (j: nat)
    requires forall l: nat :: l < 113 && EntryIn(buffer, l).inode != 0 ==> EntryIn(buffer, l).raw[MAX_NAME] == 0
    ensures j <= 113
    ensures forall l: nat :: l < j ==> !Shows(EntryIn(buffer, l), name)
    ensures j < 113 ==> Shows(EntryIn(buffer, j), name)
  {
    hide LoadEntry, CString;
    CStringEnds(name);
    j := 0;
    while j < 113
      invariant j <= 113
      invariant forall l: nat :: l < j ==> !Shows(EntryIn(buffer, l), name)
    {
      var entry := EntryIn(buffer, j);
      if entry.inode != 0 {
        var d := StrCmp(entry.raw, name + [0]);
        if d == 0 {
          return;
        }
      }
      j := j + 1;
    }
  }

  method FindFree(buffer: Block) returns (j: nat)
    ensures j <= 113
    ensures forall l: nat :: l < j ==> EntryIn(buffer, l).inode != 0
    ensures j < 113 ==> EntryIn(buffer, j).inode == 0
  {
    hide LoadEntry;
    j := 0;
    while j < 113
      invariant j <= 113
      invariant forall l: nat :: l < j ==> EntryIn(buffer, l).inode != 0
    {
      if EntryIn(buffer, j).inode == 0 {
        return;
      }
      j := j + 1;
    }
  }

  // ---------------------------------------------------------------- operations in steps

  method MakeRaw(name: Text) returns (raw: RawName)
    requires |name| <= MAX_NAME
    ensures raw == RawOf(name)
  {
    hide CString;
    CStringEnds(name);
    var field := new Byte[29];
    StrNCpy(field, name + [0], MAX_NAME);
    field[28] := 0;
    assert field[..28] == (name + Zeros(28))[..28];
    raw := field[..];
    assert forall k :: 0 <= k < 28 ==> raw[k] == field[..28][k];
    assert raw == RawOf(name);
  }

  lemma AddInodeInTwo(st: FsState, kind: u16)
    requires Shape(st) && InodeFree(st)
    ensures SetInode(SetLive(st, FirstClear(st.live) + 1, true), FirstClear(st.live) + 1,
                     FreshInode(FirstClear(st.live) + 1, kind, 0x1A4)) == AddInode(st, kind)
  {
  }

  lemma AddInodeKeepsDir(st: FsState, kind: u16, p: nat)
    requires Shape(st) && InodeFree(st) && LiveDir(st, p)
    ensures LiveDir(AddInode(st, kind), p) && Ino(AddInode(st, kind), p) == Ino(st, p)
  {
    hide DirSlots;
    AddInodeFrame(st, kind);
  }

  lemma FreeBlockIsData(st: FsState)
    requires Inv(st) && BlockFree(st)
    ensures DataBlock(st, FirstClear(st.used) + 1)
  {
    hide Directories, Records, Forest, TreeOf;
    FreeBlockIsUnheld(st);
  }

  /** Linking with a new block: bitmap, entry block and directory record in the order
      in which the code writes them. */
  lemma LinkNewBlock(st: FsState, p: nat, e: Entry)
    requires Shape(st) && Known(st, p) && FreeSlot(st, p) < SLOTS && BlockFree(st)
    requires Held(st, p, BlockOfSlot(FreeSlot(st, p))) == 0
    ensures var k, b, ino := FreeSlot(st, p), FirstClear(st.used) + 1, Ino(st, p);
            HasRoom(st, p) &&
            SetInode(PutBlock(SetUsed(st, b, true), b, PutEntryIn(Zeros(BLOCK_SIZE), EntryOfSlot(k), e)), p,
                     ino.(direct := ino.direct[BlockOfSlot(k) := b], size := (ino.size + ENTRY_SIZE) % U64_LIMIT))
            == Link(st, p, e)
  {
    hide DirSlots, PutEntryIn;
  }

  lemma LinkOldBlock(st: FsState, p: nat, e: Entry)
    requires Shape(st) && Known(st, p) && FreeSlot(st, p) < SLOTS
    requires Held(st, p, BlockOfSlot(FreeSlot(st, p))) != 0
    ensures var k, ino := FreeSlot(st, p), Ino(st, p);
            var b := Held(st, p, BlockOfSlot(k));
            HasRoom(st, p) &&
            SetInode(PutBlock(st, b, PutEntryIn(BlockAt(st, b), EntryOfSlot(k), e)), p,
                     ino.(size := (ino.size + ENTRY_SIZE) % U64_LIMIT))
            == Link(st, p, e)
  {
    hide DirSlots, PutEntryIn;
  }

  /** The state after the first i blocks of an inode have been freed. */
  function Freed(st: FsState, d: Direct, i: nat): (r: FsState)
    requires Shape(st) && i <= NDIRECT
    ensures Shape(r) && |r.inodes| == |st.inodes| && |r.used| == |st.used|
  {
    FsState(st.reserved, st.root, st.inodes, st.live,
            seq(|st.used|, n requires 0 <= n < |st.used| => st.used[n] && n + 1 !in d[..i]), st.data)
  }

  lemma FreedNone(st: FsState, d: Direct)
    requires Shape(st)
    ensures Freed(st, d, 0) == st
  {
    assert Freed(st, d, 0).used == st.used;
  }

  lemma FreedNext(st: FsState, d: Direct, i: nat)
    requires Shape(st) && i < NDIRECT
    ensures Freed(st, d, i + 1)
        == if 1 <= d[i] <= |st.used| then SetUsed(Freed(st, d, i), d[i], false) else Freed(st, d, i)
  {
    assert d[..i + 1] == d[..i] + [d[i]];
    var next := if 1 <= d[i] <= |st.used| then SetUsed(Freed(st, d, i), d[i], false) else Freed(st, d, i);
    assert Freed(st, d, i + 1).used == next.used;
  }

  lemma FreedAll(st: FsState, id: nat, d: Direct)
    requires Shape(st) && Known(st, id) && d == Ino(st, id).direct
    ensures SetLive(Freed(st, d, NDIRECT), id, false) == Reclaim(st, id)
  {
    assert d[..NDIRECT] == d;
    assert Freed(st, d, NDIRECT).used == Reclaim(st, id).used;
  }

  lemma HeldIsData(st: FsState, id: nat, i: nat)
    requires Inv(st) && Live(st, id) && i < NDIRECT && Held(st, id, i) != 0
    ensures DataBlock(st, Held(st, id, i))
  {
    hide Directories, Records, Forest, TreeOf;
  }

  /** Every block number of the table is absent or a data block. */
  ghost predicate Mapped(st: FsState, d: Direct) {
    forall i :: 0 <= i < NDIRECT ==> d[i] == 0 || DataBlock(st, d[i])
  }

  lemma InodeMapped(st: FsState, id: nat)
    requires Inv(st) && Live(st, id)
    ensures Mapped(st, Ino(st, id).direct)
  {
    hide Inv;
    forall i: nat | i < NDIRECT && Ino(st, id).direct[i] != 0 ensures DataBlock(st, Ino(st, id).direct[i]) {
      HeldIsData(st, id, i);
    }
  }

  lemma ReadLoopOnce(st: FsState, d: Direct, offset: u64, want: nat, done: nat)
    requires done < want
    ensures var at := (offset + done) % U64_LIMIT;
            var i, n := BlockIndex(at), Chunk(at, want - done);
            && at % 4096 + n <= BLOCK_SIZE && 0 < n <= want - done
            && (i < NDIRECT && d[i] != 0 ==>
                  ReadLoop(st, d, offset, want, done)
                  == BlockAt(st, d[i])[at % 4096..at % 4096 + n] + ReadLoop(st, d, offset, want, done + n))
  {
  }

  lemma ReadLoopStops(st: FsState, d: Direct, offset: u64, want: nat, done: nat)
    requires done <= want
    requires done == want || BlockIndex((offset + done) % U64_LIMIT) >= NDIRECT
             || d[BlockIndex((offset + done) % U64_LIMIT)] == 0
    ensures ReadLoop(st, d, offset, want, done) == []
  {
  }

  /** Copying the next piece of the answer behind what the buffer already holds. */
  lemma Joins(buffer: seq<Byte>, done: nat, head: seq<Byte>, tail: seq<Byte>)
    requires done + |head| <= |buffer|
    ensures var next := buffer[..done] + head + buffer[done + |head|..];
            && next[..done + |head|] + tail == buffer[..done] + (head + tail)
            && next[done + |head|..] == buffer[done..][|head|..]
  {
  }

  lemma SetUsedKeeps(st: FsState, b: nat)
    requires Shape(st) && 1 <= b <= |st.used|
    ensures SetUsed(st, b, true).inodes == st.inodes
  {
  }

  lemma AttachInTwo(st: FsState, id: nat, i: nat)
    requires Shape(st) && Known(st, id) && i < NDIRECT && BlockFree(st)
    ensures var st' := Attach(st, id, i, BlockAt(st, FirstClear(st.used) + 1));
            st'.reserved == st.reserved && |st'.used| == |st.used|
    ensures var b, ino := FirstClear(st.used) + 1, Ino(st, id);
            && SetInode(SetUsed(st, b, true), id, ino.(direct := ino.direct[i := b]))
                == Attach(st, id, i, BlockAt(st, b))
            && Ino(Attach(st, id, i, BlockAt(st, b)), id) == ino.(direct := ino.direct[i := b])
  {
    var b := FirstClear(st.used) + 1;
    assert st.data[b := BlockAt(st, b)] == st.data;
  }

  lemma PutBlockKeepsInodes(st: FsState, b: nat, blk: Block)
    requires Shape(st)
    ensures PutBlock(st, b, blk).inodes == st.inodes
  {
  }

  lemma WriteLoopOnce(st: FsState, id: nat, offset: u64, buf: seq<Byte>, done: nat)
    requires Shape(st) && Known(st, id) && done < |buf| < U64_LIMIT
    ensures var at := (offset + done) % U64_LIMIT;
            var i, n := BlockIndex(at), Chunk(at, |buf| - done);
            && at % 4096 + n <= BLOCK_SIZE && 0 < n <= |buf| - done
            && (i < NDIRECT && (Held(st, id, i) != 0 || BlockFree(st)) ==>
                  WriteLoop(st, id, offset, buf, done)
                  == WriteLoop(WriteStep(st, id, i, at % 4096, buf[done..done + n]), id, offset, buf, done + n))
  {
    hide WriteStep;
  }

  lemma WriteLoopStops(st: FsState, id: nat, offset: u64, buf: seq<Byte>, done: nat)
    requires Shape(st) && Known(st, id) && done <= |buf| < U64_LIMIT
    requires var i := BlockIndex((offset + done) % U64_LIMIT);
             done == |buf| || i >= NDIRECT || (Held(st, id, i) == 0 && !BlockFree(st))
    ensures WriteLoop(st, id, offset, buf, done) == (st, done)
  {
    hide WriteStep;
  }

  // ---------------------------------------------------------------- slots and blocks

  lemma SlotNumber(i: nat, j: nat)
    requires i < NDIRECT && j < 113
    ensures 113 * i + j < SLOTS && BlockOfSlot(113 * i + j) == i && EntryOfSlot(113 * i + j) == j
  {
  }

  lemma SlotAt(st: FsState, p: nat, k: nat)
    requires Known(st, p) && k < SLOTS
    ensures DirSlots(st, p)[k] == SlotOf(st, Ino(st, p).direct, k)
  {
  }

  lemma DirEntryAt(st: FsState, p: nat, i: nat, j: nat)
    requires Inv(st) && LiveDir(st, p) && i < NDIRECT && j < 113
    ensures 113 * i + j < SLOTS
    ensures var d := Ino(st, p).direct;
            && (d[i] != 0 ==> DataBlock(st, d[i]))
            && DirSlots(st, p)[113 * i + j] == if d[i] == 0 then NO_ENTRY else EntryIn(BlockAt(st, d[i]), j)
  {
    hide Directories, Records, Forest, TreeOf, EntryIn;
    SlotNumber(i, j);
    assert Held(st, p, i) == Ino(st, p).direct[i];
    assert DirSlots(st, p)[113 * i + j] == SlotOf(st, Ino(st, p).direct, 113 * i + j);
  }

  lemma EntryTerminated(st: FsState, p: nat, k: nat)
    requires Inv(st) && LiveDir(st, p) && k < SLOTS && DirSlots(st, p)[k].inode != 0
    ensures DirSlots(st, p)[k].raw[MAX_NAME] == 0
  {
    hide Directories, Records, Ownership, DirSlots, TreeOf, Acyclic;
    TreeHas(st, p);
    assert Edge(TreeOf(st), p, k, DirSlots(st, p)[k].inode);
  }

  /** The slots of one directory block are the entries of that block, each name terminated. */
  lemma DirBlock(st: FsState, p: nat, i: nat)
    requires Inv(st) && LiveDir(st, p) && i < NDIRECT
    ensures 113 * i + 113 <= SLOTS
    ensures var d := Ino(st, p).direct;
            && (d[i] != 0 ==> DataBlock(st, d[i]))
            && (forall k: nat :: 113 * i <= k < 113 * i + 113 ==>
                  DirSlots(st, p)[k] == if d[i] == 0 then NO_ENTRY else EntryIn(BlockAt(st, d[i]), k - 113 * i))
            && (d[i] != 0 ==> forall j: nat :: j < 113 && EntryIn(BlockAt(st, d[i]), j).inode != 0 ==>
                  EntryIn(BlockAt(st, d[i]), j).raw[MAX_NAME] == 0)
  {
    hide Inv, DirSlots, EntryIn;
    DirEntryAt(st, p, i, 0);
    forall k: nat | 113 * i <= k < 113 * i + 113
      ensures k < SLOTS
      ensures DirSlots(st, p)[k] ==
              if Ino(st, p).direct[i] == 0 then NO_ENTRY else EntryIn(BlockAt(st, Ino(st, p).direct[i]), k - 113 * i)
    {
      DirEntryAt(st, p, i, k - 113 * i);
    }
    if Ino(st, p).direct[i] != 0 {
      var blk := BlockAt(st, Ino(st, p).direct[i]);
      forall j: nat | j < 113 && EntryIn(blk, j).inode != 0 ensures EntryIn(blk, j).raw[MAX_NAME] == 0 {
        DirEntryAt(st, p, i, j);
        EntryTerminated(st, p, 113 * i + j);
      }
    }
  }

  lemma FindAt(es: seq<Entry>, name: Text, k: nat)
    requires k == FirstMatch(es, name)
    ensures Find(es, name) == if k < |es| then es[k].inode else 0
  {
  }

  lemma NoMatch(es: seq<Entry>, name: Text)
    requires forall k: nat :: k < |es| ==> !Shows(es[k], name)
    ensures FirstMatch(es, name) == |es|
  {
  }

  lemma FirstFreeIs(es: seq<Entry>, k: nat)
    requires k <= |es| && (k < |es| ==> es[k].inode == 0)
    requires forall j: nat :: j < k ==> es[j].inode != 0
    ensures FirstFree(es) == k
  {
  }
}
