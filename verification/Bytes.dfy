/** Bytes, little-endian words, patched buffers, bitmaps and C strings: the value
    level on which the on-disk and in-memory layouts of the kernel are described. */
module Bytes {

  type Byte = x: int | 0 <= x < 256

  const U16_LIMIT := 0x1_0000
  const U32_LIMIT := 0x1_0000_0000
  const U64_LIMIT := 0x1_0000_0000_0000_0000

  type u16 = x: int | 0 <= x < U16_LIMIT
  type u32 = x: int | 0 <= x < U32_LIMIT
  type u64 = x: int | 0 <= x < U64_LIMIT

  function Min(a: int, b: int): int { if a < b then a else b }

  // ---------------------------------------------------------------- words

  function Pow256(n: nat): (p: nat)
    ensures p >= 1
  {
    if n == 0 then 1 else 256 * Pow256(n - 1)
  }

  function LittleEndian(v: nat, n: nat): (s: seq<Byte>)
    ensures |s| == n
  {
    if n == 0 then [] else [v % 256] + LittleEndian(v / 256, n - 1)
  }

  function Value(s: seq<Byte>): (v: nat)
    ensures v < Pow256(|s|)
  {
    if s == [] then 0 else s[0] + 256 * Value(s[1..])
  }

  /** Storing a word and loading it back is the identity on words that fit. */
  lemma {:induction false} WordRoundTrip(v: nat, n: nat)
    requires v < Pow256(n)
    ensures Value(LittleEndian(v, n)) == v
  {
    if n > 0 {
      WordRoundTrip(v / 256, n - 1);
      assert LittleEndian(v, n)[1..] == LittleEndian(v / 256, n - 1);
    }
  }

  lemma WordLimits()
    ensures Pow256(2) == U16_LIMIT && Pow256(4) == U32_LIMIT && Pow256(8) == U64_LIMIT
  {
    assert Pow256(5) == 256 * Pow256(4) && Pow256(6) == 256 * Pow256(5);
    assert Pow256(7) == 256 * Pow256(6) && Pow256(8) == 256 * Pow256(7);
  }

  function Load16(s: seq<Byte>): u16
    requires |s| == 2
  {
    WordLimits();
    Value(s)
  }

  function Load32(s: seq<Byte>): u32
    requires |s| == 4
  {
    WordLimits();
    Value(s)
  }

  function Load64(s: seq<Byte>): u64
    requires |s| == 8
  {
    WordLimits();
    Value(s)
  }

  /** The number that two, four or eight bytes are, least significant byte first. */
  function At16(s: seq<Byte>, at: nat): nat
    requires at + 2 <= |s|
  {
    s[at] as int + 0x100 * (s[at + 1] as int)
  }

  function At32(s: seq<Byte>, at: nat): nat
    requires at + 4 <= |s|
  {
    s[at] as int + 0x100 * (s[at + 1] as int) + 0x1_0000 * (s[at + 2] as int) + 0x100_0000 * (s[at + 3] as int)
  }

  function At64(s: seq<Byte>, at: nat): nat
    requires at + 8 <= |s|
  {
    At32(s, at) + 0x1_0000_0000 * At32(s, at + 4)
  }

  lemma ValueSplit(s: seq<Byte>)
    requires |s| >= 2
    ensures Value(s) == s[0] as int + 0x100 * (s[1] as int) + 0x1_0000 * Value(s[2..])
  {
    assert s[1..][0] == s[1] && s[1..][1..] == s[2..];
  }

  lemma Value32(s: seq<Byte>)
    requires |s| >= 4
    ensures Value(s) == At32(s, 0) + 0x1_0000_0000 * Value(s[4..])
  {
    hide Value;
    ValueSplit(s);
    ValueSplit(s[2..]);
    assert s[2..][2..] == s[4..] && s[2..][0] == s[2] && s[2..][1] == s[3];
  }

  /** A word that was stored within a record is the number its bytes are. */
  lemma Stored16(s: seq<Byte>, at: nat, v: u16)
    requires at + 2 <= |s| && s[at..at + 2] == LittleEndian(v, 2)
    ensures At16(s, at) == v
  {
    var w := s[at..at + 2];
    WordLimits();
    WordRoundTrip(v, 2);
    ValueSplit(w);
    assert w[2..] == [] && w[0] == s[at] && w[1] == s[at + 1];
  }

  lemma Stored32(s: seq<Byte>, at: nat, v: u32)
    requires at + 4 <= |s| && s[at..at + 4] == LittleEndian(v, 4)
    ensures At32(s, at) == v
  {
    var w := s[at..at + 4];
    WordLimits();
    WordRoundTrip(v, 4);
    Value32(w);
    assert w[4..] == [] && w[0] == s[at] && w[1] == s[at + 1] && w[2] == s[at + 2] && w[3] == s[at + 3];
  }

  lemma Stored64(s: seq<Byte>, at: nat, v: u64)
    requires at + 8 <= |s| && s[at..at + 8] == LittleEndian(v, 8)
    ensures At64(s, at) == v
  {
    var w := s[at..at + 8];
    WordLimits();
    WordRoundTrip(v, 8);
    Value32(w);
    Value32(w[4..]);
    assert w[4..][4..] == [];
    assert w[0] == s[at] && w[1] == s[at + 1] && w[2] == s[at + 2] && w[3] == s[at + 3];
    assert w[4..][0] == s[at + 4] && w[4..][1] == s[at + 5] && w[4..][2] == s[at + 6] && w[4..][3] == s[at + 7];
  }

  /** A packed array of 32-bit words. */
  function StoreWords(ws: seq<u32>): (s: seq<Byte>)
    ensures |s| == 4 * |ws|
  {
    seq(4 * |ws|, k requires 0 <= k < 4 * |ws| => LittleEndian(ws[k / 4], 4)[k % 4])
  }

  function LoadWords(s: seq<Byte>, n: nat): (ws: seq<u32>)
    requires |s| == 4 * n
    ensures |ws| == n
  {
    seq(n, i requires 0 <= i < n => Load32(s[4 * i..4 * i + 4]))
  }

  /** Word i of a packed array starts at byte 4 * i. */
  lemma StoredWord(s: seq<Byte>, from: nat, ws: seq<u32>, i: nat)
    requires i < |ws| && from + 4 * |ws| <= |s| && s[from..from + 4 * |ws|] == StoreWords(ws)
    ensures At32(s, from + 4 * i) == ws[i]
  {
    var all := StoreWords(ws);
    var at := from + 4 * i;
    forall k | 0 <= k < 4 ensures s[at + k] == LittleEndian(ws[i], 4)[k] {
      assert s[from..from + 4 * |ws|][4 * i + k] == s[at + k];
      assert (4 * i + k) / 4 == i && (4 * i + k) % 4 == k;
    }
    assert s[at..at + 4] == LittleEndian(ws[i], 4);
    Stored32(s, at, ws[i]);
  }

  lemma WordsRoundTrip(ws: seq<u32>)
    ensures LoadWords(StoreWords(ws), |ws|) == ws
  {
    WordLimits();
    forall i | 0 <= i < |ws|
      ensures Load32(StoreWords(ws)[4 * i..4 * i + 4]) == ws[i]
    {
      var part := StoreWords(ws)[4 * i..4 * i + 4];
      forall k | 0 <= k < 4 ensures part[k] == LittleEndian(ws[i], 4)[k] {
        assert (4 * i + k) / 4 == i && (4 * i + k) % 4 == k;
      }
      assert part == LittleEndian(ws[i], 4);
      WordRoundTrip(ws[i], 4);
    }
  }

  // ---------------------------------------------------------------- buffers

  /** memcpy of t into s at an offset. */
  function Patch(s: seq<Byte>, at: nat, t: seq<Byte>): (r: seq<Byte>)
    requires at + |t| <= |s|
    ensures |r| == |s|
    ensures r[at..at + |t|] == t
    ensures forall i :: 0 <= i < |s| && !(at <= i < at + |t|) ==> r[i] == s[i]
    ensures forall i :: at <= i < at + |t| ==> r[i] == t[i - at]
  {
    s[..at] + t + s[at + |t|..]
  }

  /** A slice that does not meet the patched range keeps its bytes. */
  lemma PatchKeeps(s: seq<Byte>, at: nat, t: seq<Byte>, lo: nat, hi: nat)
    requires at + |t| <= |s|
    requires lo <= hi <= |s|
    requires hi <= at || at + |t| <= lo
    ensures Patch(s, at, t)[lo..hi] == s[lo..hi]
  {
  }

  function Zeros(n: nat): (s: seq<Byte>)
    ensures |s| == n
  {
    seq(n, _ => 0)
  }

  lemma {:induction false} ValueOfZeros(n: nat)
    ensures Value(Zeros(n)) == 0
  {
    if n > 0 {
      assert Zeros(n)[1..] == Zeros(n - 1);
      ValueOfZeros(n - 1);
    }
  }

  // ---------------------------------------------------------------- bits

  /** `(b >> k) & 1`. */
  predicate BitOf(b: nat, k: nat) {
    if k == 0 then b % 2 == 1 else BitOf(b / 2, k - 1)
  }

  /** `b | (1 << k)` and `b & ~(1 << k)`. */
  function WithBit(b: nat, k: nat, on: bool): nat {
    if k == 0 then b / 2 * 2 + (if on then 1 else 0)
    else WithBit(b / 2, k - 1, on) * 2 + b % 2
  }

  function Pow2(n: nat): (p: nat)
    ensures p >= 1
  {
    if n == 0 then 1 else 2 * Pow2(n - 1)
  }

  lemma {:induction false} WithBitBound(b: nat, k: nat, on: bool, width: nat)
    requires k < width && b < Pow2(width)
    ensures WithBit(b, k, on) < Pow2(width)
  {
    var half := Pow2(width - 1);
    assert Pow2(width) == 2 * half;
    assert b / 2 < half;
    if k > 0 {
      WithBitBound(b / 2, k - 1, on, width - 1);
      assert WithBit(b, k, on) == WithBit(b / 2, k - 1, on) * 2 + b % 2;
    } else {
      assert WithBit(b, k, on) <= b / 2 * 2 + 1;
    }
  }

  /** Bit k of a byte is the one with the weight 2^k. */
  lemma {:induction false} BitOfMeans(b: nat, k: nat)
    requires k < 8
    ensures BitOf(b, k) <==> b / Weight(k) % 2 == 1
  {
    if k > 0 {
      BitOfMeans(b / 2, k - 1);
      HalfOf(b, k - 1);
    }
  }

  function Weight(k: nat): (w: nat)
    requires k < 8
    ensures w >= 1
  {
    [1, 2, 4, 8, 16, 32, 64, 128][k]
  }

  lemma HalfOf(b: nat, k: nat)
    requires k < 7
    ensures b / 2 / Weight(k) == b / Weight(k + 1)
  {
    assert k == 0 || k == 1 || k == 2 || k == 3 || k == 4 || k == 5 || k == 6;
  }

  /** Setting or clearing bit k changes bit k and nothing else. */
  lemma {:induction false} BitOfWithBit(b: nat, k: nat, on: bool, j: nat)
    ensures BitOf(WithBit(b, k, on), j) == if j == k then on else BitOf(b, j)
  {
    if k > 0 && j > 0 {
      BitOfWithBit(b / 2, k - 1, on, j - 1);
    }
  }

  lemma {:induction false} BitOfZero(k: nat)
    ensures !BitOf(0, k)
  {
    if k > 0 {
      BitOfZero(k - 1);
    }
  }

  /** Bit i of a bitmap kept as bytes: `bitmap[i / 8] >> (i % 8) & 1`. */
  predicate Bit(bitmap: seq<Byte>, i: nat)
    requires i < 8 * |bitmap|
  {
    BitOf(bitmap[i / 8], i % 8)
  }

  function ByteWithBit(b: Byte, k: nat, on: bool): Byte
    requires k < 8
  {
    assert Pow2(8) == 256 by {
      assert Pow2(4) == 16;
      assert Pow2(6) == 2 * Pow2(5) && Pow2(7) == 2 * Pow2(6) && Pow2(8) == 2 * Pow2(7);
    }
    WithBitBound(b, k, on, 8);
    WithBit(b, k, on)
  }

  function PutBit(bitmap: seq<Byte>, i: nat, on: bool): (r: seq<Byte>)
    requires i < 8 * |bitmap|
    ensures |r| == |bitmap|
  {
    bitmap[i / 8 := ByteWithBit(bitmap[i / 8], i % 8, on)]
  }

  function Bits(bitmap: seq<Byte>, n: nat): (bits: seq<bool>)
    requires n <= 8 * |bitmap|
    ensures |bits| == n
  {
    seq(n, i requires 0 <= i < n => Bit(bitmap, i))
  }

  /** The byte-level update of a bitmap is the update of the bit vector it encodes. */
  lemma BitsPutBit(bitmap: seq<Byte>, n: nat, i: nat, on: bool)
    requires i < n <= 8 * |bitmap|
    ensures Bits(PutBit(bitmap, i, on), n) == Bits(bitmap, n)[i := on]
  {
    forall j | 0 <= j < n
      ensures Bit(PutBit(bitmap, i, on), j) == Bits(bitmap, n)[i := on][j]
    {
      BitOfWithBit(bitmap[i / 8], i % 8, on, j % 8);
      assert j / 8 == i / 8 && j % 8 == i % 8 ==> j == i;
    }
  }

  /** The first clear bit, or the length when every bit is set. */
  function FirstClear(bits: seq<bool>): (i: nat)
    ensures i <= |bits|
    ensures forall k :: 0 <= k < i ==> bits[k]
    ensures i < |bits| ==> !bits[i]
  {
    if bits == [] then 0 else if !bits[0] then 0 else 1 + FirstClear(bits[1..])
  }

  lemma FirstClearIs(bits: seq<bool>, i: nat)
    requires i <= |bits| && (i < |bits| ==> !bits[i])
    requires forall k :: 0 <= k < i ==> bits[k]
    ensures FirstClear(bits) == i
  {
  }

  // ---------------------------------------------------------------- C strings

  /** The string a NUL-terminated buffer holds: everything before the first NUL. */
  function CString(s: seq<Byte>): (r: seq<Byte>)
    ensures |r| <= |s| && r == s[..|r|]
    ensures 0 !in r
    ensures |r| < |s| ==> s[|r|] == 0
  {
    if s == [] || s[0] == 0 then [] else [s[0]] + CString(s[1..])
  }

  type Text = s: seq<Byte> | 0 !in s

  lemma {:induction false} CStringUnique(t: Text, rest: seq<Byte>)
    ensures CString(t + [0] + rest) == t
  {
    if t == [] {
      assert (t + [0] + rest)[0] == 0;
    } else {
      assert 0 !in t[1..];
      assert (t + [0] + rest)[1..] == t[1..] + [0] + rest;
      CStringUnique(t[1..], rest);
    }
  }

  lemma CStringEnds(t: Text)
    ensures CString(t + [0]) == t && 0 in t + [0]
  {
    CStringUnique(t, []);
    assert t + [0] + [] == t + [0];
    assert (t + [0])[|t|] == 0;
  }
}
