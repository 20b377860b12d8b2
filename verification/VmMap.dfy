/** The region map of the virtual memory manager: a fixed table of address intervals
    with an overlap check on insertion and an allocator that derives the address from
    the slot it will use. */
module VmMap {

  const MAX_ENTRIES := 64
  const PROT_FREE := 0x10
  const ALLOC_ALIGN := 0x100000
  const MAPPING_BASE := 0x40000000
  const ADDRESS_LIMIT := 0x1_0000_0000_0000_0000

  datatype Region = Region(va: nat, pa: nat, size: nat, flags: nat)

  type Map = seq<Region>

  predicate Live(r: Region) { r.flags != PROT_FREE }

  /** The region does not run past the end of the address space. */
  predicate Fits(va: nat, size: nat) { va + size < ADDRESS_LIMIT }

  predicate Overlaps(r: Region, va: nat, size: nat) { Live(r) && va < r.va + r.size && va + size > r.va }

  // ---------------------------------------------------------------- operations on values

  function FirstFree(m: Map): (i: nat)
    ensures i <= |m| && (i < |m| ==> !Live(m[i]))
    ensures forall j :: 0 <= j < i ==> Live(m[j])
  {
    if m == [] || !Live(m[0]) then 0 else 1 + FirstFree(m[1..])
  }

  function FirstAt(m: Map, va: nat): (i: nat)
    ensures i <= |m| && (i < |m| ==> Live(m[i]) && m[i].va == va)
    ensures forall j :: 0 <= j < i ==> !(Live(m[j]) && m[j].va == va)
  {
    if m == [] || (Live(m[0]) && m[0].va == va) then 0 else 1 + FirstAt(m[1..], va)
  }

  predicate Blocked(m: Map, va: nat, size: nat) { exists i :: 0 <= i < |m| && Overlaps(m[i], va, size) }

  function AddEntry(m: Map, r: Region): Map {
    if Blocked(m, r.va, r.size) || FirstFree(m) == |m| then m else m[FirstFree(m) := r]
  }

  function Unmap(m: Map, va: nat): Map { Protect(m, va, PROT_FREE) }

  function Protect(m: Map, va: nat, flags: nat): Map {
    if FirstAt(m, va) == |m| then m else m[FirstAt(m, va) := m[FirstAt(m, va)].(flags := flags)]
  }

  function SlotAddress(i: nat): nat { MAPPING_BASE + i * 0x100000 }

  function Allocate(m: Map, size: nat, flags: nat): (Map, nat) {
    var i := FirstFree(m);
    if i == |m| then (m, 0)
    else (AddEntry(m, Region(SlotAddress(i), SlotAddress(i), size, flags)), SlotAddress(i))
  }

  // ---------------------------------------------------------------- disjointness

  predicate Covers(r: Region, x: nat) { Live(r) && r.va <= x < r.va + r.size }

  /** Live regions do not wrap and no two of them share an address. */
  ghost predicate Disjoint(m: Map) {
    && (forall i :: 0 <= i < |m| && Live(m[i]) ==> Fits(m[i].va, m[i].size))
    && (forall i, j :: 0 <= i < |m| && 0 <= j < |m| && i != j && Live(m[i]) && Live(m[j]) ==> Apart(m[i], m[j]))
  }

  predicate Apart(a: Region, b: Region) {
    a.size == 0 || b.size == 0 || a.va + a.size <= b.va || b.va + b.size <= a.va
  }

  lemma AddEntryDisjoint(m: Map, r: Region)
    requires Disjoint(m) && Fits(r.va, r.size)
    ensures Disjoint(AddEntry(m, r))
  {
    if !Blocked(m, r.va, r.size) && FirstFree(m) < |m| {
      assert forall i :: 0 <= i < |m| && Live(m[i]) ==>
            !Overlaps(m[i], r.va, r.size) && Apart(m[i], r) && Apart(r, m[i]);
    }
  }

  lemma ProtectDisjoint(m: Map, va: nat, flags: nat)
    requires Disjoint(m)
    ensures Disjoint(Protect(m, va, flags))
  {
    var m' := Protect(m, va, flags);
    assert forall i :: 0 <= i < |m| && Live(m'[i]) ==> Live(m[i]) && m'[i].va == m[i].va && m'[i].size == m[i].size;
    forall i, j | 0 <= i < |m| && 0 <= j < |m| && i != j && Live(m'[i]) && Live(m'[j]) ensures Apart(m'[i], m'[j]) {
      assert Apart(m[i], m[j]);
    }
  }

  /** Any address is covered by at most one live region, and regions that are not empty
      have distinct start addresses. */
  lemma CoveredOnce(m: Map, i: nat, j: nat, x: nat)
    requires Disjoint(m) && i < |m| && j < |m|
    ensures Covers(m[i], x) && Covers(m[j], x) ==> i == j
    ensures Live(m[i]) && Live(m[j]) && m[i].size > 0 && m[j].size > 0 && m[i].va == m[j].va ==> i == j
  {
    if i != j && Live(m[i]) && Live(m[j]) {
      assert Apart(m[i], m[j]);
    }
  }

  // ---------------------------------------------------------------- what the operations do

  /** For ranges that are not empty, overlapping means having an address in common; an empty
      one overlaps exactly when it lies strictly inside the other. */
  lemma OverlapsIff(r: Region, va: nat, size: nat)
    ensures r.size > 0 && size > 0 ==>
              (Overlaps(r, va, size) <==> exists x: nat :: Covers(r, x) && va <= x < va + size)
    ensures size == 0 ==> (Overlaps(r, va, size) <==> Live(r) && r.va < va < r.va + r.size)
    ensures r.size == 0 ==> (Overlaps(r, va, size) <==> Live(r) && va < r.va < va + size)
  {
    if r.size > 0 && size > 0 && Overlaps(r, va, size) {
      assert Covers(r, if va < r.va then r.va else va);
    }
  }

  predicate StartsAt(r: Region, va: nat) { r.flags != PROT_FREE && r.va == va }

  /** vm_protect gives the first live region at the address the new flags, and changes
      nothing else; without such a region nothing changes. */
  lemma ProtectIs(m: Map, va: nat, flags: nat, k: nat)
    ensures k < |m| && StartsAt(m[k], va) && (forall j :: 0 <= j < k ==> !StartsAt(m[j], va)) ==>
              Protect(m, va, flags) == m[k := Region(m[k].va, m[k].pa, m[k].size, flags)]
    ensures (forall j :: 0 <= j < |m| ==> !StartsAt(m[j], va)) ==> Protect(m, va, flags) == m
  {
    if k < |m| && StartsAt(m[k], va) && forall j :: 0 <= j < k ==> !StartsAt(m[j], va) {
      FirstAtIs(m, va, k);
    }
    if forall j :: 0 <= j < |m| ==> !StartsAt(m[j], va) {
      FirstAtIs(m, va, |m|);
    }
  }

  /** vm_unmap frees the first live region at the address, and changes nothing else. */
  lemma UnmapIs(m: Map, va: nat, k: nat)
    ensures k < |m| && StartsAt(m[k], va) && (forall j :: 0 <= j < k ==> !StartsAt(m[j], va)) ==>
              Unmap(m, va) == m[k := Region(m[k].va, m[k].pa, m[k].size, 0x10)]
    ensures (forall j :: 0 <= j < |m| ==> !StartsAt(m[j], va)) ==> Unmap(m, va) == m
  {
    ProtectIs(m, va, PROT_FREE, k);
  }

  /** The flags in force at an address: those of the live region that covers it, PROT_FREE
      when none does. */
  function FlagsAt(m: Map, x: nat): nat {
    if m == [] then PROT_FREE else if Covers(m[0], x) then m[0].flags else FlagsAt(m[1..], x)
  }

  lemma {:induction false} FlagsAtIs(m: Map, x: nat, k: nat)
    requires k < |m| ==> Covers(m[k], x)
    requires k >= |m| ==> forall j :: 0 <= j < |m| ==> !Covers(m[j], x)
    requires k < |m| ==> forall j :: 0 <= j < |m| && j != k ==> !Covers(m[j], x)
    ensures FlagsAt(m, x) == if k < |m| then m[k].flags else PROT_FREE
  {
    if m != [] && k > 0 {
      assert forall j :: 0 <= j < |m[1..]| ==> m[1..][j] == m[j + 1];
      FlagsAtIs(m[1..], x, k - 1);
    }
  }

  /** In a map of disjoint regions, protecting the start of a region that is not empty and
      is the first live one there gives exactly the addresses of that region the new flags. */
  lemma ProtectChangesFlags(m: Map, k: nat, flags: nat, x: nat)
    requires Disjoint(m) && k < |m| && Live(m[k]) && m[k].size > 0
    requires forall j :: 0 <= j < k ==> !StartsAt(m[j], m[k].va)
    ensures FlagsAt(Protect(m, m[k].va, flags), x) == if Covers(m[k], x) then flags else FlagsAt(m, x)
  {
    var m' := Protect(m, m[k].va, flags);
    ProtectIs(m, m[k].va, flags, k);
    if Covers(m[k], x) {
      forall j | 0 <= j < |m| && j != k ensures !Covers(m'[j], x) {
        CoveredOnce(m, j, k, x);
      }
      FlagsAtIs(m', x, if flags != PROT_FREE then k else |m'|);
    } else if exists i :: 0 <= i < |m| && Covers(m[i], x) {
      var i :| 0 <= i < |m| && Covers(m[i], x);
      forall j | 0 <= j < |m| && j != i ensures !Covers(m[j], x) && !Covers(m'[j], x) {
        CoveredOnce(m, i, j, x);
      }
      FlagsAtIs(m, x, i);
      FlagsAtIs(m', x, i);
    } else {
      FlagsAtIs(m, x, |m|);
      FlagsAtIs(m', x, |m'|);
    }
  }

  /** New flags reach a live region exactly when no live region in an earlier slot starts at
      the same address; in a map of disjoint regions such a region is empty. */
  lemma ProtectReachesIff(m: Map, k: nat, flags: nat)
    requires Disjoint(m) && k < |m| && Live(m[k]) && m[k].size > 0 && flags != m[k].flags
    ensures Protect(m, m[k].va, flags)[k].flags == flags <==> forall j :: 0 <= j < k ==> !StartsAt(m[j], m[k].va)
    ensures forall j :: 0 <= j < k && StartsAt(m[j], m[k].va) ==> m[j].size == 0
  {
    ProtectIs(m, m[k].va, flags, k);
    forall j | 0 <= j < k && StartsAt(m[j], m[k].va) ensures m[j].size == 0 {
      assert Apart(m[j], m[k]);
    }
  }

  /** A mapping that meets no live region is recorded as given in the first free slot; one
      that does, or finds no slot, changes nothing. */
  lemma AddEntryIs(m: Map, r: Region, k: nat)
    ensures k < |m| && m[k].flags == PROT_FREE && (forall j :: 0 <= j < k ==> m[j].flags != PROT_FREE)
              && (forall j :: 0 <= j < |m| ==> !Overlaps(m[j], r.va, r.size)) ==>
            var m' := AddEntry(m, r);
            && |m'| == |m| && m'[k].va == r.va && m'[k].pa == r.pa && m'[k].size == r.size && m'[k].flags == r.flags
            && forall j :: 0 <= j < |m| && j != k ==> m'[j] == m[j]
    ensures (exists j :: 0 <= j < |m| && Overlaps(m[j], r.va, r.size)) ==> AddEntry(m, r) == m
    ensures (forall j :: 0 <= j < |m| ==> m[j].flags != PROT_FREE) ==> AddEntry(m, r) == m
  {
    if k < |m| && m[k].flags == PROT_FREE && forall j :: 0 <= j < k ==> m[j].flags != PROT_FREE {
      FirstFreeIs(m, k);
    }
    if forall j :: 0 <= j < |m| ==> m[j].flags != PROT_FREE {
      FirstFreeIs(m, |m|);
    }
  }

  // ---------------------------------------------------------------- slot-derived addresses

  /** Every live region ends below the mapping base, or is a non-empty one of at most a
      megabyte at the address of its own slot. */
  predicate Placed(r: Region, i: nat) {
    Live(r) ==>
      (r.va < MAPPING_BASE && r.va + r.size <= MAPPING_BASE) || (r.va == SlotAddress(i) && 1 <= r.size <= 0x100000)
  }

  ghost predicate AllPlaced(m: Map) { forall i :: 0 <= i < |m| ==> Placed(m[i], i) }

  lemma NotBlocked(m: Map, k: nat, size: nat)
    requires AllPlaced(m) && k < |m| && !Live(m[k]) && 1 <= size <= 0x100000
    ensures !Blocked(m, SlotAddress(k), size)
  {
    forall i | 0 <= i < |m| ensures !Overlaps(m[i], SlotAddress(k), size) {
      assert Placed(m[i], i);
      if i < k {
        assert SlotAddress(i) + 0x100000 <= SlotAddress(k);
      } else if i > k {
        assert SlotAddress(k) + 0x100000 <= SlotAddress(i);
      }
    }
  }

  /** An allocation that finds a slot is recorded at the address it returns, its overlap
      check never rejecting it, and deallocating that address removes that entry only. */
  lemma AllocateThenFree(m: Map, size: nat, flags: nat)
    requires AllPlaced(m) && 1 <= size <= 0x100000 && flags != PROT_FREE && FirstFree(m) < |m|
    ensures var (m', va) := Allocate(m, size, flags);
            var k := FirstFree(m);
            && va == SlotAddress(k) && m' == m[k := Region(va, va, size, flags)]
            && AllPlaced(m')
            && Unmap(m', va) == m[k := Region(va, va, size, PROT_FREE)]
  {
    var k := FirstFree(m);
    var (m', va) := Allocate(m, size, flags);
    NotBlocked(m, k, size);
    assert m' == m[k := Region(va, va, size, flags)];
    assert FirstAt(m', va) == k by {
      forall j | 0 <= j < |m'| && j != k ensures !(Live(m'[j]) && m'[j].va == va) {
        assert Placed(m[j], j);
      }
      FirstAtIs(m', va, k);
    }
  }

  lemma FirstAtIs(m: Map, va: nat, k: nat)
    requires k <= |m| && (k < |m| ==> Live(m[k]) && m[k].va == va)
    requires forall j :: 0 <= j < k ==> !(Live(m[j]) && m[j].va == va)
    ensures FirstAt(m, va) == k
  {
  }

  lemma FirstFreeIs(m: Map, k: nat)
    requires k <= |m| && (k < |m| ==> !Live(m[k]))
    requires forall j :: 0 <= j < k ==> Live(m[j])
    ensures FirstFree(m) == k
  {
  }

  // ---------------------------------------------------------------- runs

  datatype Call =
    | MapCall(r: Region)
    | UnmapCall(va: nat)
    | ProtectCall(va: nat, flags: nat)
    | AllocateCall(size: nat, flags: nat)

  function Do(m: Map, c: Call): (r: Map)
    ensures |r| == |m|
  {
    match c
    case MapCall(r) => AddEntry(m, r)
    case UnmapCall(va) => Unmap(m, va)
    case ProtectCall(va, flags) => Protect(m, va, flags)
    case AllocateCall(size, flags) => Allocate(m, size, flags).0
  }

  /** Ranges do not wrap. */
  predicate InRange(c: Call) {
    && (c.MapCall? ==> Fits(c.r.va, c.r.size))
    && (c.AllocateCall? ==> c.size < ADDRESS_LIMIT - SlotAddress(MAX_ENTRIES))
  }

  /** Mappings stay below the base, which is left to the allocator. */
  predicate Polite(c: Call) {
    && (c.MapCall? ==> c.r.va < MAPPING_BASE && c.r.va + c.r.size <= MAPPING_BASE)
    && (c.AllocateCall? ==> 1 <= c.size <= 0x100000 && c.flags != PROT_FREE)
  }

  function DoAll(m: Map, cs: seq<Call>): (r: Map)
    ensures |r| == |m|
    decreases |cs|
  {
    if cs == [] then m else DoAll(Do(m, cs[0]), cs[1..])
  }

  lemma DoDisjoint(m: Map, c: Call)
    requires |m| <= MAX_ENTRIES && Disjoint(m) && InRange(c)
    ensures Disjoint(Do(m, c))
  {
    match c
    case MapCall(r) => AddEntryDisjoint(m, r);
    case UnmapCall(va) => ProtectDisjoint(m, va, PROT_FREE);
    case ProtectCall(va, flags) => ProtectDisjoint(m, va, flags);
    case AllocateCall(size, flags) =>
      var i := FirstFree(m);
      if i < |m| {
        AddEntryDisjoint(m, Region(SlotAddress(i), SlotAddress(i), size, flags));
      }
  }

  lemma DoPlaced(m: Map, c: Call)
    requires AllPlaced(m) && Polite(c)
    ensures AllPlaced(Do(m, c))
  {
    if c.AllocateCall? && FirstFree(m) < |m| {
      AllocateThenFree(m, c.size, c.flags);
    } else if c.UnmapCall? {
      ProtectPlaced(m, c.va, PROT_FREE);
    } else if c.ProtectCall? {
      ProtectPlaced(m, c.va, c.flags);
    }
  }

  lemma ProtectPlaced(m: Map, va: nat, flags: nat)
    requires AllPlaced(m)
    ensures AllPlaced(Protect(m, va, flags))
  {
    forall i | 0 <= i < |m| ensures Placed(Protect(m, va, flags)[i], i) {
      assert Placed(m[i], i);
    }
  }

  /** Over every run live regions are pairwise disjoint. */
  lemma {:induction false} RunDisjoint(m: Map, cs: seq<Call>)
    requires |m| <= MAX_ENTRIES && Disjoint(m) && forall i :: 0 <= i < |cs| ==> InRange(cs[i])
    ensures Disjoint(DoAll(m, cs))
    decreases |cs|
  {
    if cs != [] {
      DoDisjoint(m, cs[0]);
      RunDisjoint(Do(m, cs[0]), cs[1..]);
    }
  }

  /** Over every run that leaves the upper range to the allocator, regions stay placed,
      so every allocation with a free slot succeeds. */
  lemma {:induction false} RunPlaced(m: Map, cs: seq<Call>)
    requires AllPlaced(m) && forall i :: 0 <= i < |cs| ==> Polite(cs[i])
    ensures AllPlaced(DoAll(m, cs))
    decreases |cs|
  {
    hide Do, AllPlaced;
    if cs != [] {
      DoPlaced(m, cs[0]);
      RunPlaced(Do(m, cs[0]), cs[1..]);
    }
  }

  /** Deallocating the address of a live slot region removes that entry only. */
  lemma FreesOwnSlot(m: Map, k: nat)
    requires AllPlaced(m) && k < |m| && Live(m[k]) && m[k].va == SlotAddress(k)
    ensures Unmap(m, SlotAddress(k)) == m[k := m[k].(flags := PROT_FREE)]
  {
    forall j | 0 <= j < |m| && j != k ensures !(Live(m[j]) && m[j].va == SlotAddress(k)) {
      assert Placed(m[j], j);
    }
    FirstAtIs(m, SlotAddress(k), k);
  }

  predicate Touches(c: Call, va: nat) { (c.UnmapCall? || c.ProtectCall?) && c.va == va }

  /** A live slot region is changed by no call that does not name its address. */
  lemma DoKeepsEntry(m: Map, c: Call, k: nat)
    requires k < |m| && Live(m[k]) && !Touches(c, m[k].va)
    ensures Do(m, c)[k] == m[k]
  {
  }

  lemma {:induction false} RunKeepsEntry(m: Map, cs: seq<Call>, k: nat)
    requires k < |m| && Live(m[k]) && forall i :: 0 <= i < |cs| ==> !Touches(cs[i], m[k].va)
    ensures DoAll(m, cs)[k] == m[k]
    decreases |cs|
  {
    if cs != [] {
      DoKeepsEntry(m, cs[0], k);
      RunKeepsEntry(Do(m, cs[0]), cs[1..], k);
    }
  }

  /** An allocation, any later calls that do not name its address, and the deallocation:
      the entry is there until the end, and it alone is removed. */
  lemma AllocateRunFree(m: Map, size: nat, flags: nat, cs: seq<Call>)
    requires AllPlaced(m) && 1 <= size <= 0x100000 && flags != PROT_FREE && FirstFree(m) < |m|
    requires forall i :: 0 <= i < |cs| ==> Polite(cs[i]) && !Touches(cs[i], SlotAddress(FirstFree(m)))
    ensures var (m1, va) := Allocate(m, size, flags);
            var k, m2 := FirstFree(m), DoAll(m1, cs);
            && m2[k] == Region(va, va, size, flags)
            && Unmap(m2, va) == m2[k := Region(va, va, size, PROT_FREE)]
  {
    hide Do, AllPlaced, Polite;
    AllocateThenFree(m, size, flags);
    var (m1, va) := Allocate(m, size, flags);
    RunKeepsEntry(m1, cs, FirstFree(m));
    RunPlaced(m1, cs);
    FreesOwnSlot(DoAll(m1, cs), FirstFree(m));
  }

  /** Without a free slot an allocation returns 0 and changes nothing. */
  lemma AllocateFull(m: Map, size: nat, flags: nat)
    requires forall j :: 0 <= j < |m| ==> m[j].flags != PROT_FREE
    ensures Allocate(m, size, flags) == (m, 0)
  {
    FirstFreeIs(m, |m|);
  }

  /** In any map an allocation that finds a slot is recorded exactly when no live region
      overlaps the range of that slot's address; otherwise the map is unchanged, and the
      address is returned all the same. */
  lemma AllocateRecordedIff(m: Map, size: nat, flags: nat)
    requires FirstFree(m) < |m| && flags != PROT_FREE
    ensures var (m', va) := Allocate(m, size, flags);
            var k := FirstFree(m);
            && va == 0x4000_0000 + k * 0x10_0000
            && (m' == m[k := Region(va, va, size, flags)] <==> !Blocked(m, va, size))
            && (Live(m'[k]) <==> !Blocked(m, va, size))
            && (Blocked(m, va, size) ==> m' == m)
  {
    var k := FirstFree(m);
    assert !Live(m[k]);
  }

  /** The map of vm_init: the kernel's gigabyte in slot 0. */
  function InitialMap(): (m: Map)
    ensures |m| == MAX_ENTRIES
  {
    seq(MAX_ENTRIES, i => if i == 0 then Region(0, 0, 0x40000000, 0x0F) else Region(0, 0, 0, PROT_FREE))
  }

  /** After vm_init, an empty mapping hides a later one at the same address: vm_protect
      changes the empty one and the pages keep their flags. */
  lemma HiddenByEmpty(flags: nat)
    ensures var m := AddEntry(InitialMap(), Region(0x5000_0000, 0, 0, 1));
            var m' := AddEntry(m, Region(0x5000_0000, 0, 4096, 1));
            && m'[2] == Region(0x5000_0000, 0, 4096, 1)
            && Protect(m', 0x5000_0000, flags) == m'[1 := Region(0x5000_0000, 0, 0, flags)]
  {
    var m := InitialMap();
    FirstFreeIs(m, 1);
    assert !Blocked(m, 0x5000_0000, 0);
    var m1 := m[1 := Region(0x5000_0000, 0, 0, 1)];
    FirstFreeIs(m1, 2);
    assert !Blocked(m1, 0x5000_0000, 4096);
    FirstAtIs(m1[2 := Region(0x5000_0000, 0, 4096, 1)], 0x5000_0000, 1);
  }

  /** Two megabytes take the range of the next slot too: the following allocation returns
      an address that it did not record and that cannot be unmapped. */
  lemma UnrecordedAllocation(flags: nat)
    requires flags != PROT_FREE
    ensures var (m1, va1) := Allocate(InitialMap(), 0x200000, flags);
            var (m2, va2) := Allocate(m1, 1, flags);
            && va1 == SlotAddress(1) && m1[1] == Region(va1, va1, 0x200000, flags)
            && va2 == SlotAddress(2) && m2 == m1 && Unmap(m2, va2) == m2
  {
    var m := InitialMap();
    FirstFreeIs(m, 1);
    assert !Blocked(m, SlotAddress(1), 0x200000);
    var m1 := m[1 := Region(SlotAddress(1), SlotAddress(1), 0x200000, flags)];
    FirstFreeIs(m1, 2);
    assert Overlaps(m1[1], SlotAddress(2), 1);
    FirstAtIs(m1, SlotAddress(2), MAX_ENTRIES);
  }

  // ---------------------------------------------------------------- the code

  class RegionMap {
    const entries: array<Region>

    ghost predicate Valid()
      reads this, entries
    {
      entries.Length == MAX_ENTRIES && Disjoint(entries[..])
    }

    /** vm_init: everything free, then the kernel's first gigabyte. */
    constructor Init()
      ensures Valid() && fresh(entries)
      ensures AllPlaced(entries[..])
      ensures entries[..] == InitialMap()
      ensures entries[0] == Region(0, 0, 0x40000000, 0x0F)
      ensures forall i :: 1 <= i < MAX_ENTRIES ==> !Live(entries[i])
    {
      entries := new Region[MAX_ENTRIES](_ => Region(0, 0, 0, PROT_FREE));
      new;
      FirstFreeIs(entries[..], 0);
      var r := Region(0, 0, 0x40000000, 0x0F);
      AddEntryCall(r);
      assert entries[..][0] == entries[0];
      assert forall i :: 0 <= i < MAX_ENTRIES ==> entries[..][i] == entries[i];
    }

    method FindFreeSlot() returns (i: int)
      requires entries.Length == MAX_ENTRIES
      ensures i == if FirstFree(entries[..]) == MAX_ENTRIES then -1 else FirstFree(entries[..])
    {
      i := 0;
      while i < MAX_ENTRIES
        invariant 0 <= i <= MAX_ENTRIES
        invariant forall j :: 0 <= j < i ==> Live(entries[j])
      {
        if entries[i].flags == PROT_FREE {
          FirstFreeIs(entries[..], i);
          return;
        }
        i := i + 1;
      }
      FirstFreeIs(entries[..], MAX_ENTRIES);
      i := -1;
    }

    method CheckOverlap(va: nat, size: nat) returns (found: bool)
      requires Valid() && Fits(va, size)
      ensures found <==> Blocked(entries[..], va, size)
    {
      var newEnd := va + size;
      var i := 0;
      while i < MAX_ENTRIES
        invariant 0 <= i <= MAX_ENTRIES
        invariant forall j :: 0 <= j < i ==> !Overlaps(entries[j], va, size)
      {
        if entries[i].flags != PROT_FREE {
          var start := entries[i].va;
          var end := start + entries[i].size;
          if va < end && newEnd > start {
            assert Overlaps(entries[..][i], va, size);
            return true;
          }
        }
        i := i + 1;
      }
      found := false;
    }

    method AddEntryCall(r: Region)
      requires Valid() && Fits(r.va, r.size)
      modifies entries
      ensures Valid() && entries[..] == AddEntry(old(entries[..]), r)
    {
      AddEntryDisjoint(entries[..], r);
      var overlap := CheckOverlap(r.va, r.size);
      if overlap {
        return;
      }
      var index := FindFreeSlot();
      if index == -1 {
        return;
      }
      entries[index] := r;
      assert entries[..] == old(entries[..])[index := r];
    }

    /** vm_protect; vm_unmap is the same scan with the free flag. */
    method ProtectCall(va: nat, flags: nat) returns (ret: int)
      requires Valid()
      modifies entries
      ensures Valid() && entries[..] == Protect(old(entries[..]), va, flags)
      ensures ret == if FirstAt(old(entries[..]), va) < MAX_ENTRIES then 0 else -1
    {
      ghost var m := entries[..];
      ProtectDisjoint(m, va, flags);
      var i := 0;
      while i < MAX_ENTRIES
        invariant 0 <= i <= MAX_ENTRIES && entries[..] == m
        invariant forall j :: 0 <= j < i ==> !(Live(m[j]) && m[j].va == va)
      {
        if entries[i].va == va && entries[i].flags != PROT_FREE {
          FirstAtIs(m, va, i);
          entries[i] := entries[i].(flags := flags);
          assert entries[..] == m[i := m[i].(flags := flags)];
          return 0;
        }
        i := i + 1;
      }
      FirstAtIs(m, va, MAX_ENTRIES);
      ret := -1;
    }

    method AllocateCall(size: nat, flags: nat) returns (va: nat)
      requires Valid() && size < ADDRESS_LIMIT - SlotAddress(MAX_ENTRIES)
      modifies entries
      ensures Valid() && (entries[..], va) == Allocate(old(entries[..]), size, flags)
    {
      var index := FindFreeSlot();
      if index == -1 {
        return 0;
      }
      va := MAPPING_BASE + index * ALLOC_ALIGN;
      AddEntryCall(Region(va, va, size, flags));
    }

    method Deallocate(va: nat) returns (ret: int)
      requires Valid()
      modifies entries
      ensures Valid() && entries[..] == Unmap(old(entries[..]), va)
      ensures ret == if FirstAt(old(entries[..]), va) < MAX_ENTRIES then 0 else -1
    {
      ret := ProtectCall(va, PROT_FREE);
    }
  }
}
