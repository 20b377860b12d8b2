/** The heap as the list of its blocks in address order, each a 24-byte header
    followed by its payload: first fit with splitting, and a free that makes one
    coalescing pass over the list without rechecking a block it has just merged. */
module Heap {
  import opened Bytes
  import opened Wrappers

  datatype Blk = Blk(size: nat, free: bool)

  // ---------------------------------------------------------------- geometry

  /** Bytes taken by a list of blocks, headers included. */
  function Span(bs: seq<Blk>): nat {
    if bs == [] then 0 else 24 + bs[0].size + Span(bs[1..])
  }

  lemma {:induction false} SpanAppend(a: seq<Blk>, b: seq<Blk>)
    ensures Span(a + b) == Span(a) + Span(b)
  {
    if a == [] {
      assert a + b == b;
    } else {
      assert (a + b)[1..] == a[1..] + b;
      SpanAppend(a[1..], b);
    }
  }

  /** The payloads in use: where each starts and how long it is. */
  function Live(at: nat, bs: seq<Blk>): (m: map<nat, nat>)
    ensures forall p :: p in m ==> at + 24 <= p <= p + m[p] <= at + Span(bs)
    decreases bs
  {
    if bs == [] then map[]
    else
      var rest := Live(at + 24 + bs[0].size, bs[1..]);
      if bs[0].free then rest else rest[at + 24 := bs[0].size]
  }

  lemma {:induction false} LiveAppend(at: nat, a: seq<Blk>, b: seq<Blk>)
    ensures Live(at, a + b) == Live(at, a) + Live(at + Span(a), b)
    decreases a
  {
    if a == [] {
      assert a + b == b;
    } else {
      assert (a + b)[1..] == a[1..] + b;
      LiveAppend(at + 24 + a[0].size, a[1..], b);
      assert at + 24 !in Live(at + Span(a), b);
    }
  }

  lemma One(at: nat, b: Blk)
    ensures Span([b]) == 24 + b.size
    ensures Live(at, [b]) == if b.free then map[] else map[at + 24 := b.size]
    ensures Pairs([b]) == 0
  {
    assert [b][1..] == [];
  }

  /** Payloads in use never overlap: a header lies between any two. */
  lemma {:induction false} LiveDisjoint(at: nat, bs: seq<Blk>, p: nat, q: nat)
    requires p in Live(at, bs) && q in Live(at, bs) && p < q
    ensures p + Live(at, bs)[p] + 24 <= q
    decreases bs
  {
    var next := at + 24 + bs[0].size;
    if p in Live(next, bs[1..]) && p != at + 24 {
      LiveDisjoint(next, bs[1..], p, q);
    }
  }

  // ---------------------------------------------------------------- fragmentation

  /** Adjacent pairs of free blocks. */
  function Pairs(bs: seq<Blk>): nat {
    if |bs| < 2 then 0
    else Pairs(bs[1..]) + if bs[0].free && bs[1].free then 1 else 0
  }

  /** The pair that joining two lists may add. */
  function Seam(a: seq<Blk>, b: seq<Blk>): nat {
    if a != [] && b != [] && a[|a| - 1].free && b[0].free then 1 else 0
  }

  lemma {:induction false} PairsAppend(a: seq<Blk>, b: seq<Blk>)
    ensures Pairs(a + b) == Pairs(a) + Pairs(b) + Seam(a, b)
  {
    if a == [] {
      assert a + b == b;
    } else if |a| == 1 {
      assert (a + b)[1..] == b;
    } else {
      assert (a + b)[1..] == a[1..] + b;
      assert a[1..][|a[1..]| - 1] == a[|a| - 1];
      PairsAppend(a[1..], b);
    }
  }

  // ---------------------------------------------------------------- kmalloc

  /** `(size + 7) & ~7`, where the sum wraps at 2^64. */
  function Round8(size: u64): nat { (size + 7) % 0x1_0000_0000_0000_0000 / 8 * 8 }

  /** The bytes that a successful request is good for: all of them, or none when the
      rounding wrapped. */
  function Granted(size: u64): nat { if size <= 0xFFFF_FFFF_FFFF_FFF8 then size else 0 }

  lemma RoundIs(size: u64)
    ensures Granted(size) <= Round8(size) <= Granted(size) + 7
    ensures Round8(size) % 8 == 0
  {
  }

  function FirstFit(bs: seq<Blk>, need: nat): (k: nat)
    ensures k <= |bs|
    ensures forall j :: 0 <= j < k ==> !(bs[j].free && bs[j].size >= need)
    ensures k < |bs| ==> bs[k].free && bs[k].size >= need
  {
    if bs == [] || (bs[0].free && bs[0].size >= need) then 0 else 1 + FirstFit(bs[1..], need)
  }

  /** A fitting block is split when more than a header would be left over. */
  function Carve(b: Blk, need: nat): seq<Blk>
    requires b.size >= need
  {
    if b.size > need + 24 then [Blk(need, false), Blk(b.size - need - 24, true)] else [Blk(b.size, false)]
  }

  /** The new list and, when a block was found, its index. */
  function Malloc(bs: seq<Blk>, size: u64): (seq<Blk>, Option<nat>) {
    var k := FirstFit(bs, Round8(size));
    if size == 0 || k == |bs| then (bs, None)
    else (bs[..k] + Carve(bs[k], Round8(size)) + bs[k + 1..], Some(k))
  }

  // ---------------------------------------------------------------- kfree

  /** The one-pass walk: a block that has absorbed its neighbour is not looked at again. */
  function Coalesce(bs: seq<Blk>): seq<Blk>
    decreases |bs|
  {
    if |bs| < 2 then bs
    else if bs[0].free && bs[1].free then [Blk(bs[0].size + 24 + bs[1].size, true)] + Coalesce(bs[2..])
    else [bs[0]] + Coalesce(bs[1..])
  }

  function Free(bs: seq<Blk>, k: nat): seq<Blk>
    requires k < |bs|
  {
    Coalesce(bs[k := Blk(bs[k].size, true)])
  }

  // ---------------------------------------------------------------- what the walk does

  /** The walk keeps the bytes, the payloads in use and the status of the first block. */
  lemma {:induction false} CoalesceKeeps(at: nat, bs: seq<Blk>)
    ensures Span(Coalesce(bs)) == Span(bs)
    ensures Live(at, Coalesce(bs)) == Live(at, bs)
    ensures (Coalesce(bs) == [] <==> bs == []) && (bs != [] ==> Coalesce(bs)[0].free == bs[0].free)
    decreases |bs|
  {
    if |bs| >= 2 {
      if bs[0].free && bs[1].free {
        var m := Blk(bs[0].size + 24 + bs[1].size, true);
        CoalesceKeeps(at + 24 + m.size, bs[2..]);
        MergeKeeps(at, bs[0], bs[1], bs[2..], Coalesce(bs[2..]));
        assert bs == [bs[0], bs[1]] + bs[2..];
      } else {
        CoalesceKeeps(at + 24 + bs[0].size, bs[1..]);
        assert ([bs[0]] + Coalesce(bs[1..]))[1..] == Coalesce(bs[1..]);
      }
    }
  }

  lemma MergeKeeps(at: nat, x: Blk, y: Blk, rest: seq<Blk>, rest': seq<Blk>)
    requires x.free && y.free
    requires Span(rest') == Span(rest)
    requires Live(at + 48 + x.size + y.size, rest') == Live(at + 48 + x.size + y.size, rest)
    ensures Span([Blk(x.size + 24 + y.size, true)] + rest') == Span([x, y] + rest)
    ensures Live(at, [Blk(x.size + 24 + y.size, true)] + rest') == Live(at, [x, y] + rest)
  {
    hide Span, Live;
    var m := Blk(x.size + 24 + y.size, true);
    assert [x, y] + rest == [x] + ([y] + rest);
    One(at, m);
    One(at, x);
    One(at + 24 + x.size, y);
    SpanAppend([m], rest');
    SpanAppend([y], rest);
    SpanAppend([x], [y] + rest);
    LiveAppend(at, [m], rest');
    LiveAppend(at, [x], [y] + rest);
    LiveAppend(at + 24 + x.size, [y], rest);
    assert at + 24 + m.size == at + 48 + x.size + y.size;
  }

  /** The walk at least halves the number of adjacent free pairs. */
  lemma {:induction false} CoalesceHalves(bs: seq<Blk>)
    ensures 2 * Pairs(Coalesce(bs)) <= Pairs(bs)
    decreases |bs|
  {
    if |bs| >= 2 {
      if bs[0].free && bs[1].free {
        var m := Blk(bs[0].size + 24 + bs[1].size, true);
        CoalesceHalves(bs[2..]);
        CoalesceKeeps(0, bs[2..]);
        assert ([m] + Coalesce(bs[2..]))[1..] == Coalesce(bs[2..]);
        assert bs[1..][1..] == bs[2..];
      } else {
        CoalesceHalves(bs[1..]);
        CoalesceKeeps(0, bs[1..]);
        assert ([bs[0]] + Coalesce(bs[1..]))[1..] == Coalesce(bs[1..]);
      }
    }
  }

  /** No three blocks in a row are free. */
  ghost predicate NoTriple(bs: seq<Blk>) {
    forall k :: 0 <= k < |bs| - 2 ==> !(bs[k].free && bs[k + 1].free && bs[k + 2].free)
  }

  lemma TripleAhead(bs: seq<Blk>)
    requires |bs| >= 2
    ensures NoTriple(bs) <==> NoTriple(bs[1..]) && !(|bs| > 2 && bs[0].free && bs[1].free && bs[2].free)
  {
    if !NoTriple(bs) {
      var k :| 0 <= k < |bs| - 2 && bs[k].free && bs[k + 1].free && bs[k + 2].free;
      if k > 0 {
        assert bs[1..][k - 1] == bs[k] && bs[1..][k] == bs[k + 1] && bs[1..][k + 1] == bs[k + 2];
      }
    }
  }

  /** The walk leaves no two adjacent free blocks exactly when it met no three in a row. */
  lemma {:induction false} CoalescesFullyIff(bs: seq<Blk>)
    ensures Pairs(Coalesce(bs)) == 0 <==> NoTriple(bs)
    decreases |bs|
  {
    hide NoTriple;
    if |bs| < 2 {
      ShortHasNoTriple(bs);
    } else {
      TripleAhead(bs);
      if bs[0].free && bs[1].free {
        var m := Blk(bs[0].size + 24 + bs[1].size, true);
        CoalescesFullyIff(bs[2..]);
        CoalesceKeeps(0, bs[2..]);
        assert ([m] + Coalesce(bs[2..]))[1..] == Coalesce(bs[2..]);
        if |bs| > 2 {
          TripleAhead(bs[1..]);
          assert bs[1..][1..] == bs[2..];
        } else {
          ShortHasNoTriple(bs[1..]);
          ShortHasNoTriple(bs[2..]);
        }
      } else {
        CoalescesFullyIff(bs[1..]);
        CoalesceKeeps(0, bs[1..]);
        assert ([bs[0]] + Coalesce(bs[1..]))[1..] == Coalesce(bs[1..]);
      }
    }
  }

  lemma ShortHasNoTriple(bs: seq<Blk>)
    requires |bs| < 3
    ensures NoTriple(bs)
  {
  }

  lemma {:induction false} NoPairs(bs: seq<Blk>)
    ensures Pairs(bs) == 0 <==> forall k :: 0 <= k < |bs| - 1 ==> !(bs[k].free && bs[k + 1].free)
  {
    if |bs| >= 2 {
      NoPairs(bs[1..]);
      if exists k :: 0 <= k < |bs| - 1 && bs[k].free && bs[k + 1].free {
        var k :| 0 <= k < |bs| - 1 && bs[k].free && bs[k + 1].free;
        assert k > 0 ==> bs[1..][k - 1].free && bs[1..][k].free;
      }
    }
  }

  predicate FreeOn(bs: seq<Blk>, k: int) { 0 <= k < |bs| && bs[k].free }

  /** A free leaves the heap fully coalesced exactly when marking its block makes no three
      free blocks in a row; on a fully coalesced heap, exactly when its two neighbours
      are not both free. */
  lemma FreeCoalescesIff(bs: seq<Blk>, k: nat)
    requires k < |bs|
    ensures Pairs(Free(bs, k)) == 0 <==> NoTriple(bs[k := Blk(bs[k].size, true)])
    ensures Pairs(bs) == 0 ==> (Pairs(Free(bs, k)) == 0 <==> !(FreeOn(bs, k - 1) && FreeOn(bs, k + 1)))
  {
    var marked := bs[k := Blk(bs[k].size, true)];
    CoalescesFullyIff(marked);
    NoPairs(bs);
    if FreeOn(bs, k - 1) && FreeOn(bs, k + 1) {
      assert marked[k - 1].free && marked[k - 1 + 1].free && marked[k - 1 + 2].free;
    }
  }

  // ---------------------------------------------------------------- invariants of a heap

  /** All blocks but the last have a size that is a multiple of eight. */
  ghost predicate Aligned(bs: seq<Blk>) {
    forall k :: 0 <= k < |bs| - 1 ==> bs[k].size % 8 == 0
  }

  ghost predicate Good(bs: seq<Blk>, heapSize: nat) {
    Span(bs) == heapSize && bs != [] && Pairs(bs) <= 1 && Aligned(bs)
  }

  lemma InitGood(heapSize: nat)
    requires heapSize >= 24
    ensures Good([Blk(heapSize - 24, true)], heapSize) && Live(0, [Blk(heapSize - 24, true)]) == map[]
  {
    assert [Blk(heapSize - 24, true)][1..] == [];
  }

  lemma Pieces(at: nat, bs: seq<Blk>, k: nat, mid: seq<Blk>)
    requires k < |bs| && Span(mid) == 24 + bs[k].size
    ensures var hole := at + Span(bs[..k]);
            && Span(bs[..k] + mid + bs[k + 1..]) == Span(bs)
            && Live(at, bs[..k] + mid + bs[k + 1..])
               == Live(at, bs[..k]) + Live(hole, mid) + Live(hole + 24 + bs[k].size, bs[k + 1..])
  {
    hide Span, Live;
    var pre, post := bs[..k], bs[k + 1..];
    SpanAppend(pre + mid, post);
    SpanAppend(pre, mid);
    LiveAppend(at, pre + mid, post);
    LiveAppend(at, pre, mid);
    assert bs == pre + [bs[k]] + post;
    SpanAppend(pre + [bs[k]], post);
    SpanAppend(pre, [bs[k]]);
    One(at, bs[k]);
  }

  lemma CarveFacts(at: nat, b: Blk, need: nat)
    requires b.free && b.size >= need
    ensures var c := Carve(b, need);
            && |c| >= 1 && Span(c) == 24 + b.size
            && Live(at, c) == map[at + 24 := c[0].size]
            && need <= c[0].size <= need + 24
            && Pairs(c) == 0 && !c[0].free
  {
    hide Span, Live;
    var c := Carve(b, need);
    if b.size > need + 24 {
      var x, y := Blk(need, false), Blk(b.size - need - 24, true);
      assert c == [x] + [y];
      SpanAppend([x], [y]);
      LiveAppend(at, [x], [y]);
      One(at, x);
      One(at + 24 + need, y);
    } else {
      One(at, Blk(b.size, false));
    }
  }

  lemma Removed(a: map<nat, nat>, b: map<nat, nat>, p: nat, n: nat)
    requires p !in a && p !in b
    ensures a + map[p := n] + b == (a + map[] + b)[p := n]
    ensures (a + map[p := n] + b) - {p} == a + map[] + b
    ensures p !in a + map[] + b
  {
  }

  /** kmalloc fails exactly when the request is zero or no free block is large enough. */
  lemma MallocFailsIff(bs: seq<Blk>, size: u64)
    ensures Malloc(bs, size).1.None? <==>
            size == 0 || forall j :: 0 <= j < |bs| ==> !(bs[j].free && bs[j].size >= Round8(size))
    ensures Malloc(bs, size).1.None? ==> Malloc(bs, size).0 == bs
  {
  }

  lemma PairsPieces(bs: seq<Blk>, k: nat, mid: seq<Blk>)
    requires k < |bs| && mid != []
    ensures Pairs(bs[..k] + mid + bs[k + 1..])
         == Pairs(bs[..k]) + Pairs(mid) + Pairs(bs[k + 1..]) + Seam(bs[..k], mid) + Seam(mid, bs[k + 1..])
  {
    PairsAppend(bs[..k] + mid, bs[k + 1..]);
    PairsAppend(bs[..k], mid);
  }

  /** The payloads around a free block. */
  lemma FreePiece(at: nat, bs: seq<Blk>, k: nat)
    requires k < |bs| && bs[k].free
    ensures var hole := at + Span(bs[..k]);
            Live(at, bs) == Live(at, bs[..k]) + map[] + Live(hole + 24 + bs[k].size, bs[k + 1..])
  {
    hide Span, Live, Pairs;
    One(at + Span(bs[..k]), bs[k]);
    Pieces(at, bs, k, [bs[k]]);
    assert bs[..k] + [bs[k]] + bs[k + 1..] == bs;
  }

  /** Replacing a free block by one payload and perhaps a free rest adds that payload. */
  lemma CarveLive(at: nat, bs: seq<Blk>, k: nat, need: nat)
    requires k < |bs| && bs[k].free && bs[k].size >= need
    ensures var c, p := Carve(bs[k], need), at + Span(bs[..k]) + 24;
            var bs' := bs[..k] + c + bs[k + 1..];
            && c != [] && need <= c[0].size <= need + 24
            && Span(bs') == Span(bs)
            && p !in Live(at, bs) && Live(at, bs') == Live(at, bs)[p := c[0].size]
  {
    hide Span, Live, Pairs, Carve;
    var c := Carve(bs[k], need);
    var hole := at + Span(bs[..k]);
    CarveFacts(hole, bs[k], need);
    Pieces(at, bs, k, c);
    FreePiece(at, bs, k);
    NotBefore(at, bs, k);
    Removed(Live(at, bs[..k]), Live(hole + 24 + bs[k].size, bs[k + 1..]), hole + 24, c[0].size);
  }

  /** A successful kmalloc keeps the heap good and adds exactly one payload, new, at least
      as long as granted and at most 31 bytes longer. It is as long as asked exactly when
      the rounding did not wrap. */
  lemma MallocGood(at: nat, bs: seq<Blk>, size: u64, heapSize: nat)
    requires Good(bs, heapSize) && Malloc(bs, size).1.Some?
    ensures var (bs', r) := Malloc(bs, size);
            var p := at + Span(bs[..r.value]) + 24;
            && r.value < |bs| && r.value < |bs'|
            && Good(bs', heapSize)
            && p !in Live(at, bs)
            && Live(at, bs') == Live(at, bs)[p := bs'[r.value].size]
            && Granted(size) <= bs'[r.value].size <= Granted(size) + 31
            && (size <= bs'[r.value].size <==> size <= 0xFFFF_FFFF_FFFF_FFF8)
  {
    hide Span, Live, Pairs, Aligned, Carve, Round8;
    var (bs', r) := Malloc(bs, size);
    var k, need := r.value, Round8(size);
    CarveLive(at, bs, k, need);
    RoundIs(size);
    var c := Carve(bs[k], need);
    assert bs'[k] == c[0];
    MallocPairs(bs, size);
    MallocAligned(bs, size);
  }

  /** A successful kmalloc splits the block it found exactly when more than a header would
      be left over: the list then grows by one, the payload is exactly the rounded size and
      the rest is a free block that is not empty. Otherwise the whole block is handed out.
      All other blocks are kept. */
  lemma MallocSplitsIff(bs: seq<Blk>, size: u64)
    requires Malloc(bs, size).1.Some?
    ensures var (bs', r) := Malloc(bs, size);
            var k, split := r.value, bs[r.value].size > Round8(size) + 24;
            && (|bs'| == |bs| + 1 <==> split) && (|bs'| == |bs| <==> !split)
            && !bs'[k].free && bs'[k].size == (if split then Round8(size) else bs[k].size)
            && (split ==> bs'[k + 1].free && bs'[k + 1].size == bs[k].size - Round8(size) - 24 > 0)
            && bs'[..k] == bs[..k] && bs'[k + (if split then 2 else 1)..] == bs[k + 1..]
  {
    hide Round8;
    var (bs', r) := Malloc(bs, size);
    var k := r.value;
    assert |bs[..k] + Carve(bs[k], Round8(size)) + bs[k + 1..]| == |bs| - 1 + |Carve(bs[k], Round8(size))|;
  }

  /** The payload address of block k is not in use by any other block. */
  lemma NotBefore(at: nat, bs: seq<Blk>, k: nat)
    requires k < |bs|
    ensures var hole := at + Span(bs[..k]);
            hole + 24 !in Live(at, bs[..k]) && hole + 24 !in Live(hole + 24 + bs[k].size, bs[k + 1..])
  {
  }

  lemma MallocPairs(bs: seq<Blk>, size: u64)
    requires Malloc(bs, size).1.Some?
    ensures Pairs(Malloc(bs, size).0) <= Pairs(bs)
  {
    var k, need := Malloc(bs, size).1.value, Round8(size);
    CarveFacts(0, bs[k], need);
    PairsPieces(bs, k, Carve(bs[k], need));
    PairsPieces(bs, k, [bs[k]]);
    assert bs[..k] + [bs[k]] + bs[k + 1..] == bs;
  }

  lemma MallocAligned(bs: seq<Blk>, size: u64)
    requires Malloc(bs, size).1.Some? && Aligned(bs)
    ensures Aligned(Malloc(bs, size).0)
  {
    var (bs', r) := Malloc(bs, size);
    var k, need := r.value, Round8(size);
    var c := Carve(bs[k], need);
    RoundIs(size);
    forall j | 0 <= j < |bs'| - 1 ensures bs'[j].size % 8 == 0 {
      if j < k {
        assert bs'[j] == bs[j];
      } else if j < k + |c| {
        assert bs'[j] == c[j - k];
      } else {
        assert bs'[j] == bs[j - |c| + 1];
      }
    }
  }

  lemma {:induction false} CoalesceAligned(bs: seq<Blk>)
    requires Aligned(bs)
    ensures Aligned(Coalesce(bs))
    decreases |bs|
  {
    if |bs| >= 2 {
      if bs[0].free && bs[1].free {
        CoalesceAligned(bs[2..]);
        CoalesceKeeps(0, bs[2..]);
        var m := Blk(bs[0].size + 24 + bs[1].size, true);
        assert |bs| > 2 ==> m.size % 8 == 0;
        forall j | 0 <= j < |Coalesce(bs)| - 1 ensures Coalesce(bs)[j].size % 8 == 0 {
          assert j > 0 ==> Coalesce(bs)[j] == Coalesce(bs[2..])[j - 1];
        }
      } else {
        CoalesceAligned(bs[1..]);
        CoalesceKeeps(0, bs[1..]);
        forall j | 0 <= j < |Coalesce(bs)| - 1 ensures Coalesce(bs)[j].size % 8 == 0 {
          assert j > 0 ==> Coalesce(bs)[j] == Coalesce(bs[1..])[j - 1];
        }
      }
    }
  }

  /** Freeing a payload in use keeps the heap good and removes exactly that payload. */
  lemma FreeGood(at: nat, bs: seq<Blk>, k: nat, heapSize: nat)
    requires Good(bs, heapSize) && k < |bs| && !bs[k].free
    ensures var p := at + Span(bs[..k]) + 24;
            && Good(Free(bs, k), heapSize)
            && p in Live(at, bs)
            && Live(at, Free(bs, k)) == Live(at, bs) - {p}
  {
    hide Span, Live, Pairs, Aligned, Coalesce;
    var b := Blk(bs[k].size, true);
    var marked := bs[k := b];
    var hole := at + Span(bs[..k]);
    assert marked == bs[..k] + [b] + bs[k + 1..];
    assert bs == bs[..k] + [bs[k]] + bs[k + 1..];
    One(hole, b);
    One(hole, bs[k]);
    Pieces(at, bs, k, [b]);
    Pieces(at, bs, k, [bs[k]]);
    NotBefore(at, bs, k);
    Removed(Live(at, bs[..k]), Live(hole + 24 + bs[k].size, bs[k + 1..]), hole + 24, bs[k].size);
    CoalesceKeeps(at, marked);
    FreePairs(bs, k);
    MarkedAligned(bs, k);
    CoalesceAligned(marked);
  }

  lemma MarkedAligned(bs: seq<Blk>, k: nat)
    requires Aligned(bs) && k < |bs|
    ensures Aligned(bs[k := Blk(bs[k].size, true)])
  {
  }

  /** Marking a block free adds at most two pairs; the walk brings them back to one. */
  lemma FreePairs(bs: seq<Blk>, k: nat)
    requires k < |bs| && !bs[k].free && Pairs(bs) <= 1
    ensures Pairs(Free(bs, k)) <= 1
  {
    var b := Blk(bs[k].size, true);
    PairsPieces(bs, k, [b]);
    PairsPieces(bs, k, [bs[k]]);
    assert bs[..k] + [bs[k]] + bs[k + 1..] == bs;
    assert bs[..k] + [b] + bs[k + 1..] == bs[k := b];
    CoalesceHalves(bs[k := b]);
  }

  // ---------------------------------------------------------------- alignment

  lemma {:induction false} SpanAligned(bs: seq<Blk>)
    requires forall k :: 0 <= k < |bs| ==> bs[k].size % 8 == 0
    ensures Span(bs) % 8 == 0
  {
    if bs != [] {
      SpanAligned(bs[1..]);
      assert Span(bs) == 24 + bs[0].size + Span(bs[1..]);
    }
  }

  /** Every payload starts at a multiple of eight when the heap does. */
  lemma PayloadAligned(at: nat, bs: seq<Blk>, k: nat)
    requires Aligned(bs) && k < |bs| && at % 8 == 0
    ensures (at + Span(bs[..k]) + 24) % 8 == 0
  {
    SpanAligned(bs[..k]);
  }

  // ---------------------------------------------------------------- whole runs

  /** The index of the block whose payload starts at p. */
  function IndexOf(at: nat, bs: seq<Blk>, p: nat): (k: nat)
    requires p in Live(at, bs)
    ensures k < |bs| && !bs[k].free && at + Span(bs[..k]) + 24 == p
    decreases bs
  {
    if !bs[0].free && p == at + 24 then
      assert bs[..0] == [];
      0
    else
      var k := 1 + IndexOf(at + 24 + bs[0].size, bs[1..], p);
      assert bs[..k][1..] == bs[1..][..k - 1];
      k
  }

  /** A call of kmalloc, or of kfree on a payload address; freeing null does nothing. */
  datatype Call = Alloc(size: u64) | Release(p: nat)

  /** The blocks, and for each payload in use the size it was requested with. */
  datatype HeapState = HeapState(blocks: seq<Blk>, requests: map<nat, u64>)

  predicate LegalCall(at: nat, h: HeapState, c: Call) {
    c.Release? ==> c.p == 0 || c.p in Live(at, h.blocks)
  }

  function Do(at: nat, h: HeapState, c: Call): HeapState
    requires LegalCall(at, h, c)
  {
    match c
    case Alloc(size) =>
      var (bs, r) := Malloc(h.blocks, size);
      if r.None? then h else HeapState(bs, h.requests[at + Span(h.blocks[..r.value]) + 24 := size])
    case Release(p) =>
      if p == 0 || p !in Live(at, h.blocks) then h
      else HeapState(Free(h.blocks, IndexOf(at, h.blocks, p)), h.requests - {p})
  }

  predicate LegalCalls(at: nat, h: HeapState, cs: seq<Call>)
    decreases |cs|
  {
    cs == [] || (LegalCall(at, h, cs[0]) && LegalCalls(at, Do(at, h, cs[0]), cs[1..]))
  }

  function DoAll(at: nat, h: HeapState, cs: seq<Call>): HeapState
    requires LegalCalls(at, h, cs)
    decreases |cs|
  {
    if cs == [] then h else DoAll(at, Do(at, h, cs[0]), cs[1..])
  }

  /** Tiled, aligned, with at most one adjacent free pair, and each payload in use is
      between what its request was granted and 31 bytes more. */
  ghost predicate HeapInv(at: nat, h: HeapState, heapSize: nat) {
    && Good(h.blocks, heapSize)
    && h.requests.Keys == Live(at, h.blocks).Keys
    && (forall p :: p in h.requests ==>
          Granted(h.requests[p]) <= Live(at, h.blocks)[p] <= Granted(h.requests[p]) + 31)
  }

  lemma DoInv(at: nat, h: HeapState, c: Call, heapSize: nat)
    requires HeapInv(at, h, heapSize) && LegalCall(at, h, c)
    ensures HeapInv(at, Do(at, h, c), heapSize)
  {
    hide HeapInv;
    match c
    case Alloc(size) => AllocInv(at, h, size, heapSize);
    case Release(p) => ReleaseInv(at, h, p, heapSize);
  }

  lemma AllocInv(at: nat, h: HeapState, size: u64, heapSize: nat)
    requires HeapInv(at, h, heapSize)
    ensures HeapInv(at, Do(at, h, Alloc(size)), heapSize)
  {
    hide Good, Live, Span, Malloc, Granted;
    if Malloc(h.blocks, size).1.Some? {
      MallocGood(at, h.blocks, size, heapSize);
    }
  }

  lemma ReleaseInv(at: nat, h: HeapState, p: nat, heapSize: nat)
    requires HeapInv(at, h, heapSize) && LegalCall(at, h, Release(p))
    ensures HeapInv(at, Do(at, h, Release(p)), heapSize)
  {
    hide Good, Live, Span, Free, Granted;
    if p != 0 && p in Live(at, h.blocks) {
      var k := IndexOf(at, h.blocks, p);
      IndexOfBlock(at, h.blocks, p);
      FreeGood(at, h.blocks, k, heapSize);
    }
  }

  lemma IndexOfBlock(at: nat, bs: seq<Blk>, p: nat)
    requires p in Live(at, bs)
    ensures var k := IndexOf(at, bs, p);
            k < |bs| && !bs[k].free && at + Span(bs[..k]) + 24 == p
  {
  }

  /** The invariant holds in every state that a run from a fresh heap can reach. */
  lemma {:induction false} RunInv(at: nat, h: HeapState, cs: seq<Call>, heapSize: nat)
    requires HeapInv(at, h, heapSize) && LegalCalls(at, h, cs)
    ensures HeapInv(at, DoAll(at, h, cs), heapSize)
    decreases |cs|
  {
    hide HeapInv, Do;
    if cs != [] {
      DoInv(at, h, cs[0], heapSize);
      RunInv(at, Do(at, h, cs[0]), cs[1..], heapSize);
    }
  }

  function Fresh(heapSize: nat): HeapState
    requires heapSize >= 24
  {
    HeapState([Blk(heapSize - 24, true)], map[])
  }

  lemma FreshRunInv(at: nat, heapSize: nat, cs: seq<Call>)
    requires heapSize >= 24 && LegalCalls(at, Fresh(heapSize), cs)
    ensures HeapInv(at, DoAll(at, Fresh(heapSize), cs), heapSize)
  {
    InitGood(heapSize);
    One(at, Blk(heapSize - 24, true));
    RunInv(at, Fresh(heapSize), cs, heapSize);
  }

  // ---------------------------------------------------------------- no empty blocks

  ghost predicate NoneEmpty(bs: seq<Blk>) { forall b :: b in bs ==> b.size > 0 }

  lemma MallocNoneEmpty(bs: seq<Blk>, size: u64)
    requires NoneEmpty(bs) && size <= 0xFFFF_FFFF_FFFF_FFF8
    ensures NoneEmpty(Malloc(bs, size).0)
  {
    hide Round8;
    RoundIs(size);
  }

  lemma {:induction false} CoalesceNoneEmpty(bs: seq<Blk>)
    requires NoneEmpty(bs)
    ensures NoneEmpty(Coalesce(bs))
    decreases |bs|
  {
    if |bs| >= 2 {
      if bs[0].free && bs[1].free {
        CoalesceNoneEmpty(bs[2..]);
      } else {
        CoalesceNoneEmpty(bs[1..]);
      }
    }
  }

  predicate Unwrapped(c: Call) { c.Alloc? ==> c.size <= 0xFFFF_FFFF_FFFF_FFF8 }

  /** Over every run whose requests do not wrap, no block is ever empty: a split never leaves
      a bare header behind. */
  lemma {:induction false} RunNoneEmpty(at: nat, h: HeapState, cs: seq<Call>)
    requires NoneEmpty(h.blocks) && LegalCalls(at, h, cs) && forall i :: 0 <= i < |cs| ==> Unwrapped(cs[i])
    ensures NoneEmpty(DoAll(at, h, cs).blocks)
    decreases |cs|
  {
    hide NoneEmpty, Malloc, Coalesce;
    if cs != [] {
      match cs[0] {
        case Alloc(size) => MallocNoneEmpty(h.blocks, size);
        case Release(p) =>
          if p != 0 && p in Live(at, h.blocks) {
            var k := IndexOf(at, h.blocks, p);
            MarkedNoneEmpty(h.blocks, k);
            CoalesceNoneEmpty(h.blocks[k := Blk(h.blocks[k].size, true)]);
          }
      }
      RunNoneEmpty(at, Do(at, h, cs[0]), cs[1..]);
    }
  }

  lemma MarkedNoneEmpty(bs: seq<Blk>, k: nat)
    requires NoneEmpty(bs) && k < |bs|
    ensures NoneEmpty(bs[k := Blk(bs[k].size, true)])
  {
    assert bs[k] in bs;
  }

  /** In particular from kmalloc_init on a heap that is more than a header. */
  lemma FreshNoneEmpty(at: nat, heapSize: nat, cs: seq<Call>)
    requires heapSize > 24 && LegalCalls(at, Fresh(heapSize), cs) && forall i :: 0 <= i < |cs| ==> Unwrapped(cs[i])
    ensures forall b :: b in DoAll(at, Fresh(heapSize), cs).blocks ==> b.size > 0
  {
    RunNoneEmpty(at, Fresh(heapSize), cs);
  }

  // ---------------------------------------------------------------- allocation by address

  /** kmalloc as its callers see it: the new heap and the address, 0 on failure. */
  function AllocAt(at: nat, h: HeapState, size: u64): (HeapState, nat) {
    var r := Malloc(h.blocks, size).1;
    if r.None? then (h, 0) else (Do(at, h, Alloc(size)), at + Span(h.blocks[..r.value]) + 24)
  }

  function ReleaseAt(at: nat, h: HeapState, p: nat): HeapState {
    if p in Live(at, h.blocks) then Do(at, h, Release(p)) else h
  }

  lemma AllocFacts(at: nat, h: HeapState, size: u64, heapSize: nat)
    requires HeapInv(at, h, heapSize)
    ensures var (h', p) := AllocAt(at, h, size);
            && HeapInv(at, h', heapSize)
            && (p == 0 ==> h' == h)
            && (p != 0 ==> p !in h.requests && h'.requests == h.requests[p := size])
  {
    hide Good, Live, Span;
    DoInv(at, h, Alloc(size), heapSize);
    if Malloc(h.blocks, size).1.Some? {
      MallocGood(at, h.blocks, size, heapSize);
    }
  }

  lemma ReleaseFacts(at: nat, h: HeapState, p: nat, heapSize: nat)
    requires HeapInv(at, h, heapSize) && p in h.requests && p != 0
    ensures HeapInv(at, ReleaseAt(at, h, p), heapSize)
    ensures ReleaseAt(at, h, p).requests == h.requests - {p}
  {
    hide Good, Live, Span;
    DoInv(at, h, Release(p), heapSize);
  }

  /** No payload starts at address 0. */
  lemma ReleaseNull(at: nat, h: HeapState)
    ensures ReleaseAt(at, h, 0) == h
  {
  }

  // ---------------------------------------------------------------- everything freed

  lemma {:induction false} NoneLive(at: nat, bs: seq<Blk>)
    requires Live(at, bs) == map[]
    ensures |bs| >= 1 ==> Pairs(bs) == |bs| - 1
    ensures bs != [] ==> bs[0].free
    decreases bs
  {
    if bs != [] {
      assert !bs[0].free ==> at + 24 in Live(at, bs);
      NoneLive(at + 24 + bs[0].size, bs[1..]);
    }
  }

  /** Once everything has been freed, whatever the run, at most two blocks remain. */
  lemma AllFreed(at: nat, heapSize: nat, cs: seq<Call>)
    requires heapSize >= 24 && LegalCalls(at, Fresh(heapSize), cs)
    requires DoAll(at, Fresh(heapSize), cs).requests == map[]
    ensures 1 <= |DoAll(at, Fresh(heapSize), cs).blocks| <= 2
  {
    var h := DoAll(at, Fresh(heapSize), cs);
    FreshRunInv(at, heapSize, cs);
    assert Live(at, h.blocks).Keys == {};
    assert Live(at, h.blocks) == map[];
    NoneLive(at, h.blocks);
  }

  lemma MallocOf(bs: seq<Blk>, size: u64, k: nat)
    requires size > 0 && k < |bs| && bs[k].free && bs[k].size >= Round8(size)
    requires forall j :: 0 <= j < k ==> !(bs[j].free && bs[j].size >= Round8(size))
    ensures Malloc(bs, size) == (bs[..k] + Carve(bs[k], Round8(size)) + bs[k + 1..], Some(k))
  {
    assert FirstFit(bs, Round8(size)) == k;
  }

  lemma {:induction false} SpanGrows(bs: seq<Blk>, i: nat, j: nat)
    requires i < j <= |bs|
    ensures Span(bs[..i]) < Span(bs[..j])
  {
    assert bs[..j] == bs[..i] + bs[i..j];
    SpanAppend(bs[..i], bs[i..j]);
  }

  /** Releasing the payload of block k frees that block. */
  lemma ReleaseIs(at: nat, h: HeapState, k: nat, heapSize: nat)
    requires Good(h.blocks, heapSize) && k < |h.blocks| && !h.blocks[k].free
    ensures var p := at + Span(h.blocks[..k]) + 24;
            LegalCall(at, h, Release(p)) && Do(at, h, Release(p)).blocks == Free(h.blocks, k)
  {
    hide Free, Live, Span;
    var p := at + Span(h.blocks[..k]) + 24;
    FreeGood(at, h.blocks, k, heapSize);
    IndexOfBlock(at, h.blocks, p);
    var j := IndexOf(at, h.blocks, p);
    if j < k {
      SpanGrows(h.blocks, j, k);
    } else if k < j {
      SpanGrows(h.blocks, k, j);
    }
  }

  /** A request from which the rounding wraps succeeds with an empty payload. */
  lemma EmptyPayload(size: u64)
    requires size > 0xFFFF_FFFF_FFFF_FFF8
    ensures Malloc([Blk(976, true)], size) == ([Blk(0, false), Blk(952, true)], Some(0))
  {
    hide Malloc, FirstFit;
    var bs := [Blk(976, true)];
    RoundIs(size);
    MallocOf(bs, size, 0);
    assert bs[..0] + Carve(bs[0], 0) + bs[1..] == [Blk(0, false), Blk(952, true)];
  }

  lemma TwoAllocs(at: nat)
    ensures var h := Do(at, Do(at, Fresh(1000), Alloc(8)), Alloc(8));
            h.blocks == [Blk(8, false), Blk(8, false), Blk(912, true)] && Good(h.blocks, 1000)
  {
    hide Malloc, FirstFit;
    var bs0 := [Blk(976, true)];
    var bs1 := [Blk(8, false), Blk(944, true)];
    MallocOf(bs0, 8, 0);
    assert bs0[..0] + Carve(bs0[0], 8) + bs0[1..] == bs1;
    MallocOf(bs1, 8, 1);
    assert bs1[..1] + Carve(bs1[1], 8) + bs1[2..] == [Blk(8, false), Blk(8, false), Blk(912, true)];
    InitGood(1000);
    MallocGood(at, bs0, 8, 1000);
    MallocGood(at, bs1, 8, 1000);
  }

  lemma DoCons(at: nat, h: HeapState, c: Call, cs: seq<Call>)
    requires LegalCall(at, h, c) && LegalCalls(at, Do(at, h, c), cs)
    ensures LegalCalls(at, h, [c] + cs) && DoAll(at, h, [c] + cs) == DoAll(at, Do(at, h, c), cs)
  {
    hide Do, LegalCall;
    assert ([c] + cs)[1..] == cs;
  }

  lemma TwoFrees()
    ensures Free([Blk(8, false), Blk(8, false), Blk(912, true)], 0) == [Blk(8, true), Blk(8, false), Blk(912, true)]
    ensures Free([Blk(8, true), Blk(8, false), Blk(912, true)], 1) == [Blk(40, true), Blk(912, true)]
  {
    var bs := [Blk(8, false), Blk(8, false), Blk(912, true)];
    var a := [Blk(8, true), Blk(8, false), Blk(912, true)];
    assert a[1..][1..] == [Blk(912, true)];
    assert Coalesce(a[1..]) == [Blk(8, false)] + [Blk(912, true)];
    assert bs[0 := Blk(8, true)] == a;
    var b := [Blk(8, true), Blk(8, true), Blk(912, true)];
    assert b[2..] == [Blk(912, true)];
    assert a[1 := Blk(8, true)] == b;
  }

  /** Two is attained: on a heap of 1000 bytes, allocate twice and free in the same order. */
  lemma TwoBlocksRemain(at: nat)
    ensures var cs := [Alloc(8), Alloc(8), Release(at + 24), Release(at + 56)];
            && LegalCalls(at, Fresh(1000), cs)
            && DoAll(at, Fresh(1000), cs).blocks == [Blk(40, true), Blk(912, true)]
            && DoAll(at, Fresh(1000), cs).requests == map[]
  {
    hide Do, Free, Good, HeapInv, Span, Live, LegalCalls, DoAll;
    var h1 := Do(at, Fresh(1000), Alloc(8));
    var h2 := Do(at, h1, Alloc(8));
    TwoAllocs(at);
    TwoFrees();
    var bs := h2.blocks;
    SpanOne(bs);
    ReleaseIs(at, h2, 0, 1000);
    FreeGood(at, bs, 0, 1000);
    var h3 := Do(at, h2, Release(at + 24));
    SpanOne(h3.blocks);
    ReleaseIs(at, h3, 1, 1000);
    var h4 := Do(at, h3, Release(at + 56));
    assert LegalCalls(at, h4, []) && DoAll(at, h4, []) == h4 by { DoNone(at, h4); }
    DoCons(at, h3, Release(at + 56), []);
    assert [Release(at + 56)] + [] == [Release(at + 56)];
    DoCons(at, h2, Release(at + 24), [Release(at + 56)]);
    DoCons(at, h1, Alloc(8), [Release(at + 24)] + [Release(at + 56)]);
    DoCons(at, Fresh(1000), Alloc(8), [Alloc(8)] + ([Release(at + 24)] + [Release(at + 56)]));
    var cs := [Alloc(8), Alloc(8), Release(at + 24), Release(at + 56)];
    assert cs == [Alloc(8)] + ([Alloc(8)] + ([Release(at + 24)] + [Release(at + 56)]));
    NothingRequested(at, cs);
  }

  lemma SpanOne(bs: seq<Blk>)
    requires bs != []
    ensures Span(bs[..0]) == 0 && Span(bs[..1]) == 24 + bs[0].size
  {
    One(0, bs[0]);
    assert bs[..1] == [bs[0]];
  }

  lemma DoNone(at: nat, h: HeapState)
    ensures LegalCalls(at, h, []) && DoAll(at, h, []) == h
  {
  }

  /** With every block free nothing is on request. */
  lemma NothingRequested(at: nat, cs: seq<Call>)
    requires LegalCalls(at, Fresh(1000), cs)
    requires forall b :: b in DoAll(at, Fresh(1000), cs).blocks ==> b.free
    ensures DoAll(at, Fresh(1000), cs).requests == map[]
  {
    hide DoAll, LegalCalls, Good;
    FreshRunInv(at, 1000, cs);
    NoneInUse(at, DoAll(at, Fresh(1000), cs).blocks);
  }

  lemma {:induction false} NoneInUse(at: nat, bs: seq<Blk>)
    requires forall b :: b in bs ==> b.free
    ensures Live(at, bs) == map[]
    decreases bs
  {
    if bs != [] {
      assert bs[0] in bs;
      NoneInUse(at + 24 + bs[0].size, bs[1..]);
    }
  }
}
