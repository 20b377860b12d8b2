/** The allocator in memory: the heap is an array of bytes, a block header is 24 of
    them (size, next pointer, free flag), and kmalloc and kfree walk the next
    pointers. The walk is proved to compute the block-list operations, and to leave
    every byte of a payload in use alone. */
module HeapMem {
  import opened Bytes
  import opened CLib
  import opened Heap

  /** The three header fields as loaded from 24 bytes of memory. */
  datatype Header = Header(size: u64, next: u64, free: u32)

  function HeaderAt(mem: seq<Byte>, off: nat): Header
    requires off + 24 <= |mem|
  {
    Header(Load64(mem[off..off + 8]), Load64(mem[off + 8..off + 16]), Load32(mem[off + 16..off + 20]))
  }

  /** A header in memory: the size in bytes 0 to 7, the next pointer in bytes 8 to 15, the
      free flag in bytes 16 to 19. */
  lemma HeaderBytes(mem: seq<Byte>, off: nat)
    requires off + 24 <= |mem|
    ensures HeaderAt(mem, off).size == At64(mem, off)
    ensures HeaderAt(mem, off).next == At64(mem, off + 8)
    ensures HeaderAt(mem, off).free == At32(mem, off + 16)
  {
    Load64Is(mem, off);
    Load64Is(mem, off + 8);
    Load32Is(mem, off + 16);
  }

  lemma Load32Is(mem: seq<Byte>, at: nat)
    requires at + 4 <= |mem|
    ensures Load32(mem[at..at + 4]) == At32(mem, at)
  {
    var w := mem[at..at + 4];
    Value32(w);
    assert w[4..] == [] && w[0] == mem[at] && w[1] == mem[at + 1] && w[2] == mem[at + 2] && w[3] == mem[at + 3];
  }

  lemma Load64Is(mem: seq<Byte>, at: nat)
    requires at + 8 <= |mem|
    ensures Load64(mem[at..at + 8]) == At64(mem, at)
  {
    var w := mem[at..at + 8];
    Value32(w);
    assert w[4..] == mem[at + 4..at + 4 + 4];
    Load32Is(mem, at + 4);
    assert w[0] == mem[at] && w[1] == mem[at + 1] && w[2] == mem[at + 2] && w[3] == mem[at + 3];
  }

  /** The headers from `off` on describe the blocks bs, the last one pointing at `last`. */
  ghost predicate Chain(mem: seq<Byte>, base: nat, off: nat, bs: seq<Blk>, last: nat)
    decreases bs
  {
    bs == [] ||
    (&& Heads(mem, off, bs[0], if |bs| == 1 then last else base + off + 24 + bs[0].size)
     && Chain(mem, base, off + 24 + bs[0].size, bs[1..], last))
  }

  ghost predicate Heads(mem: seq<Byte>, off: nat, b: Blk, next: nat) {
    && off + 24 <= |mem|
    && HeaderAt(mem, off).size == b.size
    && HeaderAt(mem, off).next == next
    && HeaderAt(mem, off).free == (if b.free then 1 else 0)
  }

  lemma {:induction false} ChainSplit(mem: seq<Byte>, base: nat, off: nat, a: seq<Blk>, b: seq<Blk>, last: nat)
    requires b != []
    ensures Chain(mem, base, off, a + b, last)
       <==> Chain(mem, base, off, a, base + off + Span(a)) && Chain(mem, base, off + Span(a), b, last)
    decreases a
  {
    hide Heads;
    if a == [] {
      assert a + b == b;
    } else {
      assert (a + b)[1..] == a[1..] + b;
      ChainSplit(mem, base, off + 24 + a[0].size, a[1..], b, last);
    }
  }

  /** A chain reads only the bytes it spans. */
  lemma {:induction false} ChainFrame(mem: seq<Byte>, mem': seq<Byte>, base: nat, off: nat, bs: seq<Blk>, last: nat)
    requires Chain(mem, base, off, bs, last) && |mem'| == |mem|
    requires forall i :: off <= i < off + Span(bs) && i < |mem| ==> mem'[i] == mem[i]
    ensures Chain(mem', base, off, bs, last)
    decreases bs
  {
    if bs != [] {
      SameHeader(mem, mem', off);
      ChainFrame(mem, mem', base, off + 24 + bs[0].size, bs[1..], last);
    }
  }

  lemma SameHeader(mem: seq<Byte>, mem': seq<Byte>, off: nat)
    requires off + 24 <= |mem| == |mem'|
    requires forall i :: off <= i < off + 24 ==> mem'[i] == mem[i]
    ensures HeaderAt(mem', off) == HeaderAt(mem, off)
  {
    assert mem'[off..off + 8] == mem[off..off + 8];
    assert mem'[off + 8..off + 16] == mem[off + 8..off + 16];
    assert mem'[off + 16..off + 20] == mem[off + 16..off + 20];
  }

  lemma ChainOne(mem: seq<Byte>, base: nat, off: nat, b: Blk, last: nat)
    ensures Chain(mem, base, off, [b], last) <==> Heads(mem, off, b, last)
  {
    assert [b][1..] == [];
  }

  // ---------------------------------------------------------------- bytes in use

  /** Byte i of the heap belongs to a payload in use. */
  ghost predicate InUse(off: nat, bs: seq<Blk>, i: nat)
    decreases bs
  {
    bs != [] && ((!bs[0].free && off + 24 <= i < off + 24 + bs[0].size) || InUse(off + 24 + bs[0].size, bs[1..], i))
  }

  lemma {:induction false} InUseAppend(off: nat, a: seq<Blk>, b: seq<Blk>, i: nat)
    ensures InUse(off, a + b, i) <==> InUse(off, a, i) || InUse(off + Span(a), b, i)
    decreases a
  {
    if a == [] {
      assert a + b == b;
    } else {
      assert (a + b)[1..] == a[1..] + b;
      InUseAppend(off + 24 + a[0].size, a[1..], b, i);
    }
  }

  lemma {:induction false} InUseWithin(off: nat, bs: seq<Blk>, i: nat)
    requires InUse(off, bs, i)
    ensures off + 24 <= i < off + Span(bs)
    decreases bs
  {
    if bs[0].free || !(off + 24 <= i < off + 24 + bs[0].size) {
      InUseWithin(off + 24 + bs[0].size, bs[1..], i);
    }
  }

  lemma InUseOne(off: nat, b: Blk, i: nat)
    ensures InUse(off, [b], i) <==> !b.free && off + 24 <= i < off + 24 + b.size
  {
    assert [b][1..] == [];
  }

  ghost predicate Covers(m: map<nat, nat>, i: nat) {
    exists p :: p in m && p <= i < p + m[p]
  }

  /** The bytes in use are those of the live payloads of the block list. */
  lemma {:induction false} InUseIsLive(off: nat, bs: seq<Blk>, i: nat)
    ensures InUse(off, bs, i) <==> Covers(Live(off, bs), i)
    decreases bs
  {
    if bs != [] {
      var next := off + 24 + bs[0].size;
      InUseIsLive(next, bs[1..], i);
      var m, rest := Live(off, bs), Live(next, bs[1..]);
      if Covers(rest, i) {
        var p :| p in rest && p <= i < p + rest[p];
        assert p in m && m[p] == rest[p];
      }
      if !bs[0].free && off + 24 <= i < next {
        assert off + 24 in m;
      }
      if Covers(m, i) {
        var p :| p in m && p <= i < p + m[p];
        if bs[0].free || p != off + 24 {
          assert p in rest && rest[p] == m[p];
        }
      }
    }
  }

  // ---------------------------------------------------------------- storing fields

  method Store64(mem: array<Byte>, off: nat, v: u64)
    requires off + 8 <= mem.Length
    modifies mem
    ensures mem[..] == Patch(old(mem[..]), off, LittleEndian(v, 8))
    ensures Load64(mem[off..off + 8]) == v
    ensures forall i :: 0 <= i < mem.Length && !(off <= i < off + 8) ==> mem[i] == old(mem[i])
  {
    MemCpy(mem, off, LittleEndian(v, 8), 0, 8);
    WordLimits();
    WordRoundTrip(v, 8);
    assert mem[off..off + 8] == LittleEndian(v, 8);
  }

  method Store32(mem: array<Byte>, off: nat, v: u32)
    requires off + 4 <= mem.Length
    modifies mem
    ensures mem[..] == Patch(old(mem[..]), off, LittleEndian(v, 4))
    ensures Load32(mem[off..off + 4]) == v
    ensures forall i :: 0 <= i < mem.Length && !(off <= i < off + 4) ==> mem[i] == old(mem[i])
  {
    MemCpy(mem, off, LittleEndian(v, 4), 0, 4);
    WordLimits();
    WordRoundTrip(v, 4);
    assert mem[off..off + 4] == LittleEndian(v, 4);
  }

  /** The three field assignments `h->size = v`, `h->next = v`, `h->free = v`. */
  method SetSize(mem: array<Byte>, off: nat, v: u64)
    requires off + 24 <= mem.Length
    modifies mem
    ensures HeaderAt(mem[..], off) == old(HeaderAt(mem[..], off)).(size := v)
    ensures forall i :: 0 <= i < mem.Length && !(off <= i < off + 24) ==> mem[i] == old(mem[i])
  {
    Store64(mem, off, v);
    assert mem[..][off..off + 8] == mem[off..off + 8];
    assert mem[..][off + 8..off + 16] == old(mem[..])[off + 8..off + 16];
    assert mem[..][off + 16..off + 20] == old(mem[..])[off + 16..off + 20];
  }

  method SetNext(mem: array<Byte>, off: nat, v: u64)
    requires off + 24 <= mem.Length
    modifies mem
    ensures HeaderAt(mem[..], off) == old(HeaderAt(mem[..], off)).(next := v)
    ensures forall i :: 0 <= i < mem.Length && !(off <= i < off + 24) ==> mem[i] == old(mem[i])
  {
    Store64(mem, off + 8, v);
    assert mem[..][off..off + 8] == old(mem[..])[off..off + 8];
    assert mem[..][off + 8..off + 16] == mem[off + 8..off + 16];
    assert mem[..][off + 16..off + 20] == old(mem[..])[off + 16..off + 20];
  }

  method SetFree(mem: array<Byte>, off: nat, v: u32)
    requires off + 24 <= mem.Length
    modifies mem
    ensures HeaderAt(mem[..], off) == old(HeaderAt(mem[..], off)).(free := v)
    ensures forall i :: 0 <= i < mem.Length && !(off <= i < off + 24) ==> mem[i] == old(mem[i])
  {
    Store32(mem, off + 16, v);
    assert mem[..][off..off + 8] == old(mem[..])[off..off + 8];
    assert mem[..][off + 8..off + 16] == old(mem[..])[off + 8..off + 16];
    assert mem[..][off + 16..off + 20] == mem[off + 16..off + 20];
  }

  // ---------------------------------------------------------------- replacing blocks in the chain

  /** The chain after some blocks in the middle were replaced by others that span the
      same bytes, when only those bytes changed. */
  lemma ChainReplace(mem: seq<Byte>, mem': seq<Byte>, base: nat, a: seq<Blk>, m: seq<Blk>, m': seq<Blk>, b: seq<Blk>)
    requires m != [] && m' != [] && Span(m') == Span(m) && |mem'| == |mem|
    requires Chain(mem, base, 0, a + m + b, 0)
    requires forall i :: 0 <= i < |mem| && !(Span(a) <= i < Span(a) + Span(m)) ==> mem'[i] == mem[i]
    requires Chain(mem', base, Span(a), m', if b == [] then 0 else base + Span(a) + Span(m))
    ensures Chain(mem', base, 0, a + m' + b, 0)
  {
    hide Span, Chain;
    assert a + m + b == a + (m + b) && a + m' + b == a + (m' + b);
    ChainSplit(mem, base, 0, a, m + b, 0);
    ChainSplit(mem', base, 0, a, m' + b, 0);
    ChainFrame(mem, mem', base, 0, a, base + Span(a));
    if b == [] {
      assert m + b == m && m' + b == m';
    } else {
      ChainSplit(mem, base, Span(a), m, b, 0);
      ChainSplit(mem', base, Span(a), m', b, 0);
      ChainFrame(mem, mem', base, Span(a) + Span(m), b, 0);
    }
  }

  lemma ChainAt(mem: seq<Byte>, base: nat, bs: seq<Blk>, k: nat)
    requires Chain(mem, base, 0, bs, 0) && k < |bs|
    ensures Heads(mem, Span(bs[..k]), bs[k], if k + 1 == |bs| then 0 else base + Span(bs[..k + 1]))
    ensures Span(bs[..k + 1]) == Span(bs[..k]) + 24 + bs[k].size
  {
    hide Heads;
    assert bs == bs[..k] + bs[k..];
    ChainSplit(mem, base, 0, bs[..k], bs[k..], 0);
    assert bs[k..][0] == bs[k];
    assert bs[..k + 1] == bs[..k] + [bs[k]];
    SpanAppend(bs[..k], [bs[k]]);
    One(0, bs[k]);
  }

  lemma SpanBound(bs: seq<Blk>, k: nat)
    requires k < |bs|
    ensures Span(bs[..k]) + 24 + bs[k].size <= Span(bs)
  {
    assert bs == bs[..k] + ([bs[k]] + bs[k + 1..]);
    SpanAppend(bs[..k], [bs[k]] + bs[k + 1..]);
    SpanAppend([bs[k]], bs[k + 1..]);
    One(0, bs[k]);
  }

  // ---------------------------------------------------------------- the allocator

  class Allocator {
    const base: u64
    const mem: array<Byte>
    /** The blocks that the headers in memory describe. */
    ghost var blocks: seq<Blk>

    ghost predicate Valid()
      reads this, mem
    {
      && 0 < base && base + mem.Length < U64_LIMIT
      && blocks != [] && Span(blocks) == mem.Length
      && Chain(mem[..], base, 0, blocks, 0)
    }

    constructor Init(start: u64, memory: array<Byte>)
      requires 0 < start && start + memory.Length < U64_LIMIT && memory.Length >= 24
      modifies memory
      ensures Valid() && base == start && mem == memory
      ensures blocks == [Blk(memory.Length - 24, true)]
    {
      base, mem := start, memory;
      blocks := [Blk(memory.Length - 24, true)];
      new;
      hide Span;
      SetSize(mem, 0, mem.Length - 24);
      SetNext(mem, 0, 0);
      SetFree(mem, 0, 1);
      ChainOne(mem[..], base, 0, blocks[0], 0);
      One(0, blocks[0]);
    }

    /** First fit over the next pointers. The result is the payload's address, or 0. */
    method Kmalloc(request: u64) returns (p: u64)
      requires Valid()
      modifies this`blocks, mem
      ensures Valid()
      ensures var (bs, r) := Malloc(old(blocks), request);
              && blocks == bs
              && p == (if r.None? then 0 else base + Span(old(blocks)[..r.value]) + 24)
      ensures forall i: nat :: InUse(0, old(blocks), i) ==> i < mem.Length && mem[i] == old(mem[i])
    {
      hide Span, Chain, InUse, Carve, Heads;
      ghost var bs := blocks;
      InUseInside(bs);
      if request == 0 {
        return 0;
      }
      var size := (request + 7) % U64_LIMIT / 8 * 8;
      assert size == Round8(request);
      var current := base;
      ghost var k := 0;
      assert Span(bs[..0]) == 0 by { Nothing(); }
      while current != 0
        invariant Valid() && blocks == bs && mem[..] == old(mem[..])
        invariant 0 <= k <= |bs|
        invariant current == (if k == |bs| then 0 else base + Span(bs[..k]))
        invariant forall j :: 0 <= j < k ==> !(bs[j].free && bs[j].size >= size)
        decreases |bs| - k
      {
        ChainAt(mem[..], base, bs, k);
        SpanBound(bs, k);
        var off := current - base;
        HeadsMean(mem[..], off, bs[k], if k + 1 == |bs| then 0 else base + Span(bs[..k + 1]));
        var h := HeaderAt(mem[..], off);
        if h.free != 0 && h.size >= size {
          FirstFitIs(bs, size, k);
          InUseElsewhere(bs, k);
          Claim(k, off, size);
          return current + 24;
        }
        current := h.next;
        k := k + 1;
      }
      FirstFitIs(bs, size, k);
      p := 0;
    }

    /** Mark the block free, then one coalescing walk over the next pointers. */
    method Kfree(p: u64)
      requires Valid() && (p == 0 || (p >= base && p - base in Live(0, blocks)))
      modifies this`blocks, mem
      ensures Valid()
      ensures blocks == if p == 0 then old(blocks) else Free(old(blocks), IndexOf(0, old(blocks), p - base))
      ensures forall i: nat :: InUse(0, blocks, i) ==> i < mem.Length && mem[i] == old(mem[i])
    {
      hide Span, Chain, InUse, Live, Coalesce;
      if p == 0 {
        InUseInside(blocks);
        return;
      }
      ghost var k := IndexOf(0, blocks, p - base);
      IndexOfBlock(0, blocks, p - base);
      MarkFree(k, p - base - 24);
      ghost var goal := Coalesce(blocks);
      ghost var done, rest: seq<Blk> := [], blocks;
      assert [] + blocks == blocks && [] + Coalesce(blocks) == goal;
      assert Span(done) == 0 by { One(0, blocks[0]); SpanAppend([], []); assert [] + [] == done; }
      var current := base;
      while current != 0
        invariant Valid() && blocks == done + rest && goal == done + Coalesce(rest)
        invariant current == if rest == [] then 0 else base + Span(done)
        invariant forall i: nat :: InUse(0, blocks, i) ==> i < mem.Length && mem[i] == old(mem[i])
        decreases |rest|
      {
        var merged;
        current, merged := Visit(done, rest, current - base);
        CoalesceStep(rest);
        ghost var x, tail := if merged then Joined(rest) else rest[0], if merged then rest[2..] else rest[1..];
        Advance(done, x, Coalesce(tail), tail);
        assert !merged ==> rest == [x] + tail;
        done, rest := done + [x], tail;
      }
      assert Coalesce([]) == [] by { CoalesceKeeps(0, []); }
      assert done + [] == done;
    }

    method MarkFree(ghost k: nat, off: nat)
      requires Valid() && k < |blocks| && off == Span(blocks[..k])
      modifies this`blocks, mem
      ensures Valid() && blocks == old(blocks)[k := Blk(old(blocks)[k].size, true)]
      ensures forall i: nat :: InUse(0, blocks, i) ==> i < mem.Length && mem[i] == old(mem[i])
    {
      hide Span, Chain, InUse;
      ghost var bs, m, b := blocks, mem[..], Blk(blocks[k].size, true);
      ghost var last := if k + 1 == |bs| then 0 else base + Span(bs[..k + 1]);
      ChainAt(m, base, bs, k);
      SetFree(mem, off, 1);
      ChainOne(mem[..], base, off, b, last);
      One(0, bs[k]);
      One(0, b);
      assert bs == bs[..k] + [bs[k]] + bs[k + 1..];
      assert bs[k := b] == bs[..k] + [b] + bs[k + 1..];
      SpanBound(bs, k);
      ChainReplace(m, mem[..], base, bs[..k], [bs[k]], [b], bs[k + 1..]);
      Pieces(0, bs, k, [b]);
      blocks := bs[k := b];
      assert blocks[..k] == bs[..k];
      InUseElsewhere(blocks, k);
    }

    /** One step of the walk at the header `off`: absorb a free neighbour, then move on. */
    method Visit(ghost done: seq<Blk>, ghost rest: seq<Blk>, off: nat) returns (next: u64, merged: bool)
      requires Valid() && blocks == done + rest && rest != [] && off == Span(done)
      modifies this`blocks, mem
      ensures merged <==> Mergeable(rest)
      ensures Valid() && blocks == if merged then done + ([Joined(rest)] + rest[2..]) else old(blocks)
      ensures next == if |rest| == (if merged then 2 else 1) then 0
                      else base + Span(done) + (if merged then 24 + Joined(rest).size else 24 + rest[0].size)
      ensures forall i: nat :: InUse(0, blocks, i) ==>
            i < mem.Length && (InUse(0, old(blocks), i) && mem[i] == old(mem[i]))
    {
      hide Span, Chain, InUse, HeaderAt;
      ghost var bs, m := blocks, mem[..];
      InUseInside(bs);
      ChainHere(m, base, done, rest);
      var h := HeaderAt(mem[..], off);
      merged := false;
      next := h.next;
      if h.free != 0 && h.next != 0 {
        var n := HeaderAt(mem[..], h.next - base);
        if n.free != 0 && base + off + 24 + h.size == h.next {
          SetSize(mem, off, h.size + 24 + n.size);
          SetNext(mem, off, n.next);
          MergedChain(m, mem[..], base, done, rest);
          blocks := done + ([Joined(rest)] + rest[2..]);
          merged := true;
          next := n.next;
        }
      }
    }

    /** Lay a header for the rest behind the first `size` bytes of a block. */
    method Split(off: nat, size: u64, h: Header)
      requires off + 24 + h.size <= mem.Length && h.size > size + 24 && h == HeaderAt(mem[..], off)
      requires base + mem.Length < U64_LIMIT
      modifies mem
      ensures HeaderAt(mem[..], off) == Header(size, base + off + 24 + size, 0)
      ensures HeaderAt(mem[..], off + 24 + size) == Header(h.size - size - 24, h.next, 1)
      ensures forall i :: 0 <= i < mem.Length && !(off <= i < off + 24 + h.size) ==> mem[i] == old(mem[i])
    {
      hide HeaderAt;
      var rest := off + 24 + size;
      SetSize(mem, rest, h.size - size - 24);
      SetNext(mem, rest, h.next);
      SetFree(mem, rest, 1);
      ghost var m := mem[..];
      SetNext(mem, off, base + rest);
      SetSize(mem, off, size);
      SetFree(mem, off, 0);
      SameHeader(m, mem[..], rest);
    }

    /** Split block k when it is large enough, then mark it used. */
    method Claim(ghost k: nat, off: nat, size: u64)
      requires Valid() && k < |blocks| && off == Span(blocks[..k]) && off + 24 + blocks[k].size <= mem.Length
      requires blocks[k].free && blocks[k].size >= size && size <= U64_LIMIT - 24
      modifies this`blocks, mem
      ensures Valid() && blocks == old(blocks)[..k] + Carve(old(blocks)[k], size) + old(blocks)[k + 1..]
      ensures forall i :: 0 <= i < mem.Length && !(off <= i < off + 24 + old(blocks)[k].size) ==> mem[i] == old(mem[i])
    {
      hide Span, Chain, InUse, Pairs, Live;
      ghost var bs, m := blocks, mem[..];
      ghost var last := if k + 1 == |bs| then 0 else base + Span(bs[..k + 1]);
      ChainAt(mem[..], base, bs, k);
      var h := HeaderAt(mem[..], off);
      if h.size > size + 24 {
        Split(off, size, h);
        TwoHeads(mem[..], base, off, Blk(size, false), Blk(bs[k].size - size - 24, true), last);
      } else {
        SetFree(mem, off, 0);
        ChainOne(mem[..], base, off, Blk(bs[k].size, false), last);
      }
      CarvedChain(m, mem[..], base, bs, k, size);
      blocks := bs[..k] + Carve(bs[k], size) + bs[k + 1..];
    }
  }

  predicate Mergeable(rest: seq<Blk>) { |rest| >= 2 && rest[0].free && rest[1].free }

  function Joined(rest: seq<Blk>): Blk
    requires |rest| >= 2
  {
    Blk(rest[0].size + 24 + rest[1].size, true)
  }

  lemma CoalesceStep(rest: seq<Blk>)
    requires rest != []
    ensures Coalesce(rest) == if Mergeable(rest) then [Joined(rest)] + Coalesce(rest[2..])
                              else [rest[0]] + Coalesce(rest[1..])
  {
  }

  lemma InUseInside(bs: seq<Blk>)
    ensures forall i: nat :: InUse(0, bs, i) ==> i < Span(bs)
  {
    forall i: nat | InUse(0, bs, i) ensures i < Span(bs) {
      InUseWithin(0, bs, i);
    }
  }

  /** The headers of the next one or two blocks of the walk. */
  lemma ChainHere(mem: seq<Byte>, base: nat, done: seq<Blk>, rest: seq<Blk>)
    requires Chain(mem, base, 0, done + rest, 0) && rest != []
    ensures Heads(mem, Span(done), rest[0], if |rest| == 1 then 0 else base + Span(done) + 24 + rest[0].size)
    ensures |rest| >= 2 ==> Heads(mem, Span(done) + 24 + rest[0].size, rest[1],
                              if |rest| == 2 then 0 else base + Span(done) + 24 + rest[0].size + 24 + rest[1].size)
    ensures Span(done + rest) >= Span(done) + 24 + rest[0].size
    ensures |rest| >= 2 ==> Span(done + rest) >= Span(done) + 24 + rest[0].size + 24 + rest[1].size
  {
    hide Heads;
    ChainSplit(mem, base, 0, done, rest, 0);
    SpanAppend(done, rest);
  }

  lemma MergedChain(mem: seq<Byte>, mem': seq<Byte>, base: nat, done: seq<Blk>, rest: seq<Blk>)
    requires Chain(mem, base, 0, done + rest, 0) && Mergeable(rest) && |mem'| == |mem| == Span(done + rest)
    requires Heads(mem', Span(done), Joined(rest),
                   if |rest| == 2 then 0 else base + Span(done) + 24 + rest[0].size + 24 + rest[1].size)
    requires forall i :: 0 <= i < |mem| && !(Span(done) <= i < Span(done) + 24) ==> mem'[i] == mem[i]
    ensures Chain(mem', base, 0, done + ([Joined(rest)] + rest[2..]), 0)
    ensures Span(done + ([Joined(rest)] + rest[2..])) == Span(done + rest)
    ensures forall i: nat :: InUse(0, done + ([Joined(rest)] + rest[2..]), i) ==>
              i < |mem| && InUse(0, done + rest, i) && mem'[i] == mem[i]
  {
    hide Heads, Span, Chain, InUse;
    var x, y, xy, tail := rest[0], rest[1], Joined(rest), rest[2..];
    var two := [x, y];
    assert rest == two + tail && two == [x] + [y];
    One(0, x);
    One(0, y);
    One(0, xy);
    SpanAppend([x], [y]);
    assert done + rest == done + two + tail && done + ([xy] + tail) == done + [xy] + tail;
    ChainOne(mem', base, Span(done), xy,
             if |rest| == 2 then 0 else base + Span(done) + 24 + x.size + 24 + y.size);
    SpanAppend(done + two, tail);
    SpanAppend(done, two);
    SpanAppend(done + [xy], tail);
    SpanAppend(done, [xy]);
    ChainReplace(mem, mem', base, done, two, [xy], tail);
    var now := done + ([xy] + tail);
    forall i: nat | InUse(0, now, i) ensures i < |mem| && InUse(0, done + rest, i) && mem'[i] == mem[i] {
      InUseMerged(done, x, y, tail, i);
      InUseWithin(0, done + rest, i);
      assert now[..|done|] == done && now[|done|] == xy;
      InUseElsewhere(now, |done|);
    }
  }

  lemma InUseMerged(done: seq<Blk>, x: Blk, y: Blk, tail: seq<Blk>, i: nat)
    requires x.free && y.free
    ensures InUse(0, done + ([Blk(x.size + 24 + y.size, true)] + tail), i) <==> InUse(0, done + ([x, y] + tail), i)
  {
    hide InUse, Span;
    var xy := Blk(x.size + 24 + y.size, true);
    assert [x, y] + tail == [x] + ([y] + tail);
    InUseAppend(0, done, [xy] + tail, i);
    InUseAppend(0, done, [x] + ([y] + tail), i);
    InUseAppend(Span(done), [xy], tail, i);
    InUseAppend(Span(done), [x], [y] + tail, i);
    One(0, x);
    One(0, y);
    One(0, xy);
    InUseAppend(Span(done) + 24 + x.size, [y], tail, i);
    InUseOne(Span(done), xy, i);
    InUseOne(Span(done), x, i);
    InUseOne(Span(done) + 24 + x.size, y, i);
  }

  lemma Nothing()
    ensures forall bs: seq<Blk> :: Span(bs[..0]) == 0
  {
  }

  lemma HeadsMean(mem: seq<Byte>, off: nat, b: Blk, next: nat)
    requires Heads(mem, off, b, next)
    ensures off + 24 <= |mem|
    ensures HeaderAt(mem, off).size == b.size && HeaderAt(mem, off).next == next
    ensures HeaderAt(mem, off).free == (if b.free then 1 else 0)
  {
  }

  lemma FirstFitIs(bs: seq<Blk>, need: nat, k: nat)
    requires k <= |bs| && (k < |bs| ==> bs[k].free && bs[k].size >= need)
    requires forall j :: 0 <= j < k ==> !(bs[j].free && bs[j].size >= need)
    ensures FirstFit(bs, need) == k
  {
  }

  lemma TwoHeads(mem: seq<Byte>, base: nat, off: nat, x: Blk, y: Blk, last: nat)
    requires Heads(mem, off, x, base + off + 24 + x.size) && Heads(mem, off + 24 + x.size, y, last)
    ensures Chain(mem, base, off, [x, y], last)
  {
    hide Heads;
    assert [x, y][1..] == [y];
    ChainOne(mem, base, off + 24 + x.size, y, last);
  }

  lemma CarvedChain(mem: seq<Byte>, mem': seq<Byte>, base: nat, bs: seq<Blk>, k: nat, size: nat)
    requires Chain(mem, base, 0, bs, 0) && |mem'| == |mem| && k < |bs| && bs[k].free && bs[k].size >= size
    requires forall i :: 0 <= i < |mem| && !(Span(bs[..k]) <= i < Span(bs[..k]) + 24 + bs[k].size) ==> mem'[i] == mem[i]
    requires Chain(mem', base, Span(bs[..k]), Carve(bs[k], size), if k + 1 == |bs| then 0 else base + Span(bs[..k + 1]))
    ensures Chain(mem', base, 0, bs[..k] + Carve(bs[k], size) + bs[k + 1..], 0)
    ensures Span(bs[..k] + Carve(bs[k], size) + bs[k + 1..]) == Span(bs)
  {
    hide Span, Chain, Live, Pairs, Carve;
    CarveFacts(0, bs[k], size);
    One(0, bs[k]);
    assert bs == bs[..k] + [bs[k]] + bs[k + 1..];
    assert bs[..k + 1] == bs[..k] + [bs[k]];
    SpanAppend(bs[..k], [bs[k]]);
    ChainReplace(mem, mem', base, bs[..k], [bs[k]], Carve(bs[k], size), bs[k + 1..]);
    Pieces(0, bs, k, Carve(bs[k], size));
  }

  lemma Advance(done: seq<Blk>, x: Blk, goal: seq<Blk>, rest: seq<Blk>)
    ensures Span(done + [x]) == Span(done) + 24 + x.size
    ensures done + ([x] + goal) == done + [x] + goal && done + ([x] + rest) == done + [x] + rest
  {
    SpanAppend(done, [x]);
    One(0, x);
  }

  /** No byte of a free block is in use. */
  lemma InUseElsewhere(bs: seq<Blk>, k: nat)
    requires k < |bs| && bs[k].free
    ensures forall i: nat :: InUse(0, bs, i) ==>
              i < Span(bs) && !(Span(bs[..k]) <= i < Span(bs[..k]) + 24 + bs[k].size)
  {
    hide Span, InUse;
    forall i: nat | InUse(0, bs, i)
      ensures i < Span(bs) && !(Span(bs[..k]) <= i < Span(bs[..k]) + 24 + bs[k].size)
    {
      var pre, post := bs[..k], bs[k + 1..];
      assert bs == pre + ([bs[k]] + post);
      InUseAppend(0, pre, [bs[k]] + post, i);
      InUseAppend(Span(pre), [bs[k]], post, i);
      One(0, bs[k]);
      InUseOne(Span(pre), bs[k], i);
      InUseWithin(0, bs, i);
      if InUse(0, pre, i) {
        InUseWithin(0, pre, i);
      } else {
        InUseWithin(Span(pre) + 24 + bs[k].size, post, i);
      }
    }
  }
}
