/** The formatter of the kernel library: itoa's digit loop and in-place reversal
    produce the canonical numeral, and the bounded vsnprintf produces the full
    expansion cut off at the end of the buffer. */
module Format {
  import opened Bytes
  import opened CLib

  const MINUS: Byte := 45
  const PERCENT: Byte := 37
  const ZERO: Byte := 48

  // ---------------------------------------------------------------- numerals

  function Digit(v: nat): Byte
    requires v < 16
  {
    if v > 9 then v - 10 + 97 else v + 48
  }

  function Digits(n: nat, radix: nat): (s: seq<Byte>)
    requires 2 <= radix <= 16
    ensures |s| >= 1
  {
    if n < radix then [Digit(n)] else Digits(n / radix, radix) + [Digit(n % radix)]
  }

  function Numeral(n: int, radix: nat): seq<Byte>
    requires 2 <= radix <= 16
  {
    if n < 0 then [MINUS] + Digits(-n, radix) else Digits(n, radix)
  }

  /** Reading a numeral, the inverse of writing one. */
  function DigitValue(b: Byte): int { if b >= 97 then b as int - 97 + 10 else b as int - 48 }

  function Number(s: seq<Byte>, radix: nat): int {
    if s == [] then 0 else Number(s[..|s| - 1], radix) * radix + DigitValue(s[|s| - 1])
  }

  function Parse(s: seq<Byte>, radix: nat): int {
    if s != [] && s[0] == MINUS then -Number(s[1..], radix) else Number(s, radix)
  }

  lemma {:induction false} DigitsParse(n: nat, radix: nat)
    requires radix == 10 || radix == 16
    ensures Number(Digits(n, radix), radix) == n
    ensures Digits(n, radix)[0] != MINUS && (n != 0 ==> Digits(n, radix)[0] != ZERO)
    ensures forall i :: 0 <= i < |Digits(n, radix)| ==> Digits(n, radix)[i] != 0
  {
    hide Digit, DigitValue, Number;
    if n < radix {
      DigitRoundTrip(n);
      NumberSnoc([], Digit(n), radix);
      assert [] + [Digit(n)] == Digits(n, radix);
    } else {
      DivMod(n, radix);
      DigitRoundTrip(n % radix);
      DigitsParse(n / radix, radix);
      NumberSnoc(Digits(n / radix, radix), Digit(n % radix), radix);
    }
  }

  lemma DigitRoundTrip(v: nat)
    requires v < 16
    ensures DigitValue(Digit(v)) == v
    ensures Digit(v) != MINUS && Digit(v) != 0 && (v != 0 ==> Digit(v) != ZERO)
  {
  }

  lemma NumberSnoc(t: seq<Byte>, d: Byte, radix: nat)
    ensures Number(t + [d], radix) == Number(t, radix) * radix + DigitValue(d)
    ensures Number([], radix) == 0
  {
    assert (t + [d])[..|t|] == t;
  }

  lemma DivMod(n: nat, radix: nat)
    requires radix == 10 || radix == 16
    ensures n / radix * radix + n % radix == n && 0 <= n % radix < radix
    ensures n >= radix ==> 0 < n / radix < n
  {
    if radix == 10 {
      assert n / 10 * 10 + n % 10 == n;
    } else {
      assert n / 16 * 16 + n % 16 == n;
    }
  }

  /** The numeral is canonical: parsing gives the number back and there is no leading zero. */
  lemma NumeralCanonical(n: int, radix: nat)
    requires radix == 10 || radix == 16
    ensures Parse(Numeral(n, radix), radix) == n
    ensures n > 0 ==> Numeral(n, radix)[0] != ZERO
    ensures n < 0 ==> |Numeral(n, radix)| >= 2 && Numeral(n, radix)[1] != ZERO
    ensures n == 0 ==> Numeral(n, radix) == [ZERO]
    ensures 0 !in Numeral(n, radix)
  {
    DigitsParse(if n < 0 then -n else n, radix);
    if n < 0 {
      assert Numeral(n, radix)[1..] == Digits(-n, radix);
    }
  }

  function Pow(b: nat, e: nat): nat { if e == 0 then 1 else b * Pow(b, e - 1) }

  lemma {:induction false} DigitsLength(n: nat, radix: nat, e: nat)
    requires 2 <= radix <= 16 && e >= 1 && n < Pow(radix, e)
    ensures |Digits(n, radix)| <= e
    decreases e
  {
    hide Pow, Digits;
    PowNext(radix, e);
    if n < radix {
      DigitsOne(n, radix);
    } else {
      DivLess(n, radix, Pow(radix, e - 1));
      DigitsNext(n, radix);
      DigitsLength(n / radix, radix, e - 1);
    }
  }

  lemma PowNext(b: nat, e: nat)
    requires e >= 1
    ensures Pow(b, e) == b * Pow(b, e - 1) && (e == 1 ==> Pow(b, e) == b)
  {
  }

  lemma DigitsOne(n: nat, radix: nat)
    requires 2 <= radix <= 16 && n < radix
    ensures |Digits(n, radix)| == 1
  {
  }

  lemma DigitsNext(n: nat, radix: nat)
    requires 2 <= radix <= 16 && n >= radix
    ensures n / radix >= 0 && |Digits(n, radix)| == |Digits(n / radix, radix)| + 1
  {
  }

  lemma DivLess(n: nat, radix: nat, p: nat)
    requires radix > 0 && n < radix * p
    ensures n / radix < p
  {
  }

  const INT64_LIMIT := 0x8000_0000_0000_0000

  /** Sign, digits and NUL of every 64-bit value fit the 32-byte buffer of the caller. */
  lemma NumeralFits(n: int, radix: nat)
    requires (radix == 10 || radix == 16) && -INT64_LIMIT < n < INT64_LIMIT
    ensures |Numeral(n, radix)| <= 20
  {
    var a := if n < 0 then -n else n;
    if radix == 10 {
      assert Pow(10, 4) == 10000;
      assert Pow(10, 8) == 100000000 by { PowAdd(10, 4, 4); }
      assert Pow(10, 16) == 10000000000000000 by { PowAdd(10, 8, 8); }
      assert Pow(10, 3) == 1000;
      PowAdd(10, 16, 3);
      DigitsLength(a, 10, 19);
    } else {
      assert Pow(16, 4) == 0x1_0000;
      assert Pow(16, 8) == 0x1_0000_0000 by { PowAdd(16, 4, 4); }
      PowAdd(16, 8, 8);
      DigitsLength(a, 16, 16);
    }
  }

  lemma {:induction false} PowAdd(b: nat, x: nat, y: nat)
    ensures Pow(b, x + y) == Pow(b, x) * Pow(b, y)
  {
    if x > 0 {
      PowAdd(b, x - 1, y);
      Regroup(b, Pow(b, x - 1), Pow(b, y));
      assert Pow(b, x) == b * Pow(b, x - 1);
      assert Pow(b, x + y) == b * Pow(b, x - 1 + y);
    }
  }

  lemma Regroup(a: nat, b: nat, c: nat)
    ensures a * (b * c) == (a * b) * c
  {
  }

  // ---------------------------------------------------------------- itoa

  function Reverse(s: seq<Byte>): (r: seq<Byte>)
    ensures |r| == |s|
    ensures forall i :: 0 <= i < |s| ==> r[i] == s[|s| - 1 - i]
  {
    if s == [] then [] else [s[|s| - 1]] + Reverse(s[..|s| - 1])
  }

  /** The digits as the loop meets them, least significant first. */
  function LowFirst(n: nat, radix: nat): seq<Byte>
    requires 2 <= radix <= 16
  {
    if n == 0 then [] else [Digit(n % radix)] + LowFirst(n / radix, radix)
  }

  lemma {:induction false} LowFirstReversed(n: nat, radix: nat)
    requires 2 <= radix <= 16 && n > 0
    ensures |LowFirst(n, radix)| == |Digits(n, radix)| && Reverse(LowFirst(n, radix)) == Digits(n, radix)
  {
    if n < radix {
      LowFirstOne(n, radix);
    } else {
      DivPositive(n, radix);
      LowFirstReversed(n / radix, radix);
      ReverseCons(Digit(n % radix), LowFirst(n / radix, radix));
    }
  }

  lemma LowFirstOne(n: nat, radix: nat)
    requires 2 <= radix <= 16 && 0 < n < radix
    ensures LowFirst(n, radix) == [Digit(n)]
    ensures Reverse([Digit(n)]) == [Digit(n)]
  {
    SmallDiv(n, radix);
    assert [Digit(n)][..0] == [];
    assert LowFirst(n / radix, radix) == [];
  }

  lemma SmallDiv(n: nat, radix: nat)
    requires n < radix
    ensures n / radix == 0 && n % radix == n
  {
  }

  lemma ReverseCons(d: Byte, t: seq<Byte>)
    ensures Reverse([d] + t) == Reverse(t) + [d]
  {
    forall i | 0 <= i <= |t| ensures Reverse([d] + t)[i] == (Reverse(t) + [d])[i] {
      assert Reverse([d] + t)[i] == ([d] + t)[|t| - i];
    }
  }

  lemma ReverseSnoc(t: seq<Byte>, d: Byte)
    ensures Reverse(t + [d]) == [d] + Reverse(t)
  {
    assert (t + [d])[..|t|] == t;
  }

  lemma DivPositive(n: nat, radix: nat)
    requires 0 < radix <= n
    ensures n / radix > 0
  {
  }

  method Itoa(num: int, str: array<Byte>, radix: nat)
    requires (radix == 10 || radix == 16) && -INT64_LIMIT < num < INT64_LIMIT && (radix == 16 ==> num >= 0)
    requires str.Length >= 32
    modifies str
    ensures |Numeral(num, radix)| < str.Length
    ensures str[..|Numeral(num, radix)|] == Numeral(num, radix) && str[|Numeral(num, radix)|] == 0
  {
    hide Numeral, LowFirst, Reverse;
    NumeralFits(num, radix);
    if num == 0 {
      ZeroNumeral(radix);
      str[0] := ZERO;
      str[1] := 0;
      return;
    }
    var n, negative := num, false;
    if num < 0 && radix == 10 {
      negative := true;
      n := -num;
    }
    NumeralLow(num, radix);
    var len := DigitLoop(n, str, radix);
    ghost var low := LowFirst(n, radix);
    if negative {
      str[len] := MINUS;
      len := len + 1;
      low := low + [MINUS];
    }
    str[len] := 0;
    assert str[..len] == low;
    ReverseInPlace(str, len);
    assert str[len..][0] == 0;
  }

  /** The digits and the sign, reversed, are the numeral. */
  lemma NumeralLow(num: int, radix: nat)
    requires 2 <= radix <= 16 && num != 0
    ensures var low := LowFirst(if num < 0 then -num else num, radix);
            && |low| <= |Numeral(num, radix)|
            && Numeral(num, radix) == Reverse(if num < 0 then low + [MINUS] else low)
            && |Numeral(num, radix)| == |low| + (if num < 0 then 1 else 0)
  {
    hide Digits, LowFirst, Reverse;
    var n := if num < 0 then -num else num;
    LowFirstReversed(n, radix);
    ReverseSnoc(LowFirst(n, radix), MINUS);
  }

  lemma ZeroNumeral(radix: nat)
    requires 2 <= radix <= 16
    ensures Numeral(0, radix) == [ZERO]
  {
  }

  method DigitLoop(num: nat, str: array<Byte>, radix: nat) returns (len: nat)
    requires 2 <= radix <= 16 && |LowFirst(num, radix)| <= str.Length
    modifies str
    ensures len == |LowFirst(num, radix)| && str[..len] == LowFirst(num, radix)
  {
    hide LowFirst, Digit;
    ghost var all := LowFirst(num, radix);
    var n: nat := num;
    len := 0;
    assert str[..0] + LowFirst(n, radix) == all;
    while n != 0
      invariant len <= |all| && str[..len] + LowFirst(n, radix) == all
      decreases n
    {
      ghost var before := str[..len];
      LowFirstNext(n, radix);
      DivSmaller(n, radix);
      ModSmaller(n, radix);
      var v: nat := n % radix;
      str[len] := Digit(v);
      assert str[..len + 1] == before + [Digit(v)];
      assert before + ([Digit(v)] + LowFirst(n / radix, radix)) == before + [Digit(v)] + LowFirst(n / radix, radix);
      n := n / radix;
      len := len + 1;
    }
    LowFirstDone(radix);
  }

  lemma LowFirstNext(n: nat, radix: nat)
    requires 2 <= radix <= 16 && n > 0
    ensures LowFirst(n, radix) == [Digit(n % radix)] + LowFirst(n / radix, radix)
  {
  }

  lemma LowFirstDone(radix: nat)
    requires 2 <= radix <= 16
    ensures LowFirst(0, radix) == []
  {
  }

  lemma ModSmaller(n: nat, radix: nat)
    requires radix >= 2
    ensures 0 <= n % radix < radix
  {
  }

  lemma DivSmaller(n: nat, radix: nat)
    requires n > 0 && radix >= 2
    ensures 0 <= n / radix < n
  {
  }

  /** The two-pointer swap loop. */
  method ReverseInPlace(str: array<Byte>, len: nat)
    requires len <= str.Length
    modifies str
    ensures str[..len] == Reverse(old(str[..len]))
    ensures str[len..] == old(str[len..])
  {
    var lo, hi := 0, len - 1;
    while lo < hi
      invariant 0 <= lo && hi == len - 1 - lo && lo <= hi + 1
      invariant forall k :: 0 <= k < lo ==> str[k] == old(str[len - 1 - k])
      invariant forall k :: len - lo <= k < len ==> str[k] == old(str[len - 1 - k])
      invariant forall k :: lo <= k <= hi ==> str[k] == old(str[k])
      invariant str[len..] == old(str[len..])
    {
      str[lo], str[hi] := str[hi], str[lo];
      lo, hi := lo + 1, hi - 1;
    }
    SwappedIsReverse(old(str[..len]), str[..len], lo);
  }

  /** Swapping the outer pairs up to the middle reverses. */
  lemma SwappedIsReverse(was: seq<Byte>, now: seq<Byte>, lo: nat)
    requires |now| == |was| && |was| - 1 <= 2 * lo <= |was|
    requires forall k :: 0 <= k < lo || |was| - lo <= k < |was| ==> now[k] == was[|was| - 1 - k]
    requires forall k :: lo <= k < |was| - lo ==> now[k] == was[k]
    ensures now == Reverse(was)
  {
    var r := Reverse(was);
    hide Reverse;
    assert forall i :: 0 <= i < |was| ==> now[i] == r[i];
  }

  // ---------------------------------------------------------------- formats

  /** An argument of the variadic call. */
  datatype Arg = Str(s: Text) | Int(i: int) | Word(w: u64)

  predicate IsString(c: Byte) { c == 115 }               // %s
  predicate IsDecimal(c: Byte) { c == 100 || c == 105 }  // %d %i
  predicate IsHex(c: Byte) { c == 120 || c == 112 }      // %x %p
  predicate IsChar(c: Byte) { c == 99 }                  // %c

  predicate Takes(c: Byte) { IsString(c) || IsDecimal(c) || IsHex(c) || IsChar(c) }

  /** The argument has the type its conversion reads; hex arguments are below 2^63. */
  predicate Suits(c: Byte, a: Arg) {
    && (IsString(c) ==> a.Str?)
    && (IsDecimal(c) ==> a.Int? && -0x8000_0000 <= a.i < 0x8000_0000)
    && (IsHex(c) ==> a.Word? && a.w < INT64_LIMIT)
    && (IsChar(c) ==> a.Int?)
  }

  /** No lone '%' at the end, and an argument of the right kind for each conversion. */
  predicate WellFormed(format: seq<Byte>, args: seq<Arg>)
    decreases |format|
  {
    if format == [] then true
    else if format[0] != PERCENT then WellFormed(format[1..], args)
    else if |format| == 1 then false
    else if Takes(format[1]) then args != [] && Suits(format[1], args[0]) && WellFormed(format[2..], args[1..])
    else WellFormed(format[2..], args)
  }

  function Converted(c: Byte, a: Arg): seq<Byte>
    requires Takes(c) && Suits(c, a)
  {
    if IsString(c) then a.s
    else if IsDecimal(c) then Numeral(a.i, 10)
    else if IsHex(c) then Numeral(a.w, 16)
    else [a.i % 256]
  }

  /** The full expansion; an unknown conversion prints nothing. */
  function Expand(format: seq<Byte>, args: seq<Arg>): seq<Byte>
    requires WellFormed(format, args)
    decreases |format|
  {
    if format == [] then []
    else if format[0] != PERCENT then [format[0]] + Expand(format[1..], args)
    else if Takes(format[1]) then Converted(format[1], args[0]) + Expand(format[2..], args[1..])
    else (if format[1] == PERCENT then [PERCENT] else []) + Expand(format[2..], args)
  }

  // ---------------------------------------------------------------- what a format means

  /** A format without '%' expands to itself. */
  lemma {:induction false} LiteralExpands(format: seq<Byte>, args: seq<Arg>)
    requires 37 !in format
    ensures WellFormed(format, args) && Expand(format, args) == format
  {
    if format != [] {
      assert format[0] in format;
      LiteralExpands(format[1..], args);
    }
  }

  /** The number of arguments a format reads. */
  function Reads(format: seq<Byte>): nat
    decreases |format|
  {
    if |format| < 2 then 0
    else if format[0] != 37 then Reads(format[1..])
    else Reads(format[2..]) + if Takes(format[1]) then 1 else 0
  }

  /** The three kinds of format item in front of a format. */
  lemma ByteFirst(c: Byte, f: seq<Byte>, args: seq<Arg>)
    requires c != 37
    ensures WellFormed([c] + f, args) == WellFormed(f, args) && Reads([c] + f) == Reads(f)
    ensures WellFormed(f, args) ==> Expand([c] + f, args) == [c] + Expand(f, args)
  {
    assert ([c] + f)[1..] == f;
  }

  lemma ConversionFirst(c: Byte, f: seq<Byte>, args: seq<Arg>)
    requires Takes(c)
    ensures WellFormed([37, c] + f, args) <==> args != [] && Suits(c, args[0]) && WellFormed(f, args[1..])
    ensures Reads([37, c] + f) == Reads(f) + 1
    ensures WellFormed([37, c] + f, args) ==>
            Expand([37, c] + f, args) == Converted(c, args[0]) + Expand(f, args[1..])
  {
    hide Converted, Suits, Takes;
    assert ([37, c] + f)[2..] == f;
  }

  lemma OtherFirst(c: Byte, f: seq<Byte>, args: seq<Arg>)
    requires !Takes(c)
    ensures WellFormed([37, c] + f, args) == WellFormed(f, args) && Reads([37, c] + f) == Reads(f)
    ensures WellFormed(f, args) ==>
            Expand([37, c] + f, args) == (if c == 37 then [37] else []) + Expand(f, args)
  {
    hide Converted, Suits, Takes;
    assert ([37, c] + f)[2..] == f;
  }

  lemma EdgeFormats(args: seq<Arg>)
    ensures !WellFormed([37], args)
    ensures WellFormed([], args) && Expand([], args) == [] && Reads([]) == 0
  {
  }

  lemma Regrouped(x: seq<Byte>, y: seq<Byte>, z: seq<Byte>)
    ensures x + (y + z) == (x + y) + z
  {
  }

  /** A format in two parts expands part by part. */
  lemma {:induction false} ExpandAppend(f: seq<Byte>, g: seq<Byte>, a: seq<Arg>, b: seq<Arg>)
    requires WellFormed(f, a) && Reads(f) == |a| && WellFormed(g, b)
    ensures WellFormed(f + g, a + b) && Expand(f + g, a + b) == Expand(f, a) + Expand(g, b)
    decreases |f|, 1
  {
    hide WellFormed, Expand, Reads, Takes, Suits, Converted;
    EdgeFormats(a);
    if f == [] {
      assert a == [] && f + g == g && a + b == b;
      assert [] + Expand(g, b) == Expand(g, b);
    } else if f[0] != 37 {
      ByteThenAppend(f, g, a, b);
    } else {
      assert |f| == 1 ==> f == [37];
      ConversionThenAppend(f, g, a, b);
    }
  }

  lemma ByteThenAppend(f: seq<Byte>, g: seq<Byte>, a: seq<Arg>, b: seq<Arg>)
    requires f != [] && f[0] != 37 && WellFormed(f, a) && Reads(f) == |a| && WellFormed(g, b)
    ensures WellFormed(f + g, a + b) && Expand(f + g, a + b) == Expand(f, a) + Expand(g, b)
    decreases |f|, 0
  {
    hide WellFormed, Expand, Reads;
    var c, rest := f[0], f[1..];
    assert f == [c] + rest && f + g == [c] + (rest + g);
    ByteFirst(c, rest, a);
    ExpandAppend(rest, g, a, b);
    ByteFirst(c, rest + g, a + b);
    Regrouped([c], Expand(rest, a), Expand(g, b));
  }

  lemma ConversionThenAppend(f: seq<Byte>, g: seq<Byte>, a: seq<Arg>, b: seq<Arg>)
    requires |f| >= 2 && f[0] == 37 && WellFormed(f, a) && Reads(f) == |a| && WellFormed(g, b)
    ensures WellFormed(f + g, a + b) && Expand(f + g, a + b) == Expand(f, a) + Expand(g, b)
    decreases |f|, 0
  {
    hide WellFormed, Expand, Reads, Takes, Suits, Converted;
    var c, rest := f[1], f[2..];
    assert f == [37, c] + rest && f + g == [37, c] + (rest + g);
    if Takes(c) {
      ConversionFirst(c, rest, a);
      ExpandAppend(rest, g, a[1..], b);
      assert (a + b)[0] == a[0] && (a + b)[1..] == a[1..] + b;
      ConversionFirst(c, rest + g, a + b);
      Regrouped(Converted(c, a[0]), Expand(rest, a[1..]), Expand(g, b));
    } else {
      OtherFirst(c, rest, a);
      ExpandAppend(rest, g, a, b);
      OtherFirst(c, rest + g, a + b);
      Regrouped(if c == 37 then [37] else [], Expand(rest, a), Expand(g, b));
    }
  }

  /** A conversion on its own. */
  lemma Single(c: Byte, a: Arg)
    requires Takes(c) && Suits(c, a)
    ensures WellFormed([37, c], [a]) && Expand([37, c], [a]) == Converted(c, a)
  {
    hide Converted;
    assert [37 as Byte, c][2..] == [] && [a][1..] == [];
    assert Converted(c, a) + [] == Converted(c, a);
  }

  /** "%d" and "%i" print the canonical decimal numeral of their argument. */
  lemma DecimalPrints(c: Byte, i: int)
    requires c == 100 || c == 105
    requires -0x8000_0000 <= i < 0x8000_0000
    ensures WellFormed([37, c], [Int(i)])
    ensures var s := Expand([37, c], [Int(i)]);
            Parse(s, 10) == i && |s| >= 1 && (s[0] == 48 ==> |s| == 1) && (s[0] == 45 <==> i < 0)
  {
    Single(c, Int(i));
    NumeralCanonical(i, 10);
    NumeralStarts(i, 10);
    hide Numeral, Parse;
  }

  /** "%x" and "%p" print the canonical hexadecimal numeral. */
  lemma HexPrints(c: Byte, w: u64)
    requires (c == 120 || c == 112) && w < INT64_LIMIT
    ensures WellFormed([37, c], [Word(w)])
    ensures var s := Expand([37, c], [Word(w)]);
            Parse(s, 16) == w && |s| >= 1 && (s[0] == 48 ==> |s| == 1)
  {
    Single(c, Word(w));
    NumeralCanonical(w, 16);
    NumeralStarts(w, 16);
    hide Numeral, Parse;
  }

  /** A numeral is not empty, starts with '-' exactly for negative numbers, and with '0' only
      for zero. */
  lemma NumeralStarts(n: int, radix: nat)
    requires radix == 10 || radix == 16
    ensures var s := Numeral(n, radix);
            |s| >= 1 && (s[0] == 45 <==> n < 0) && (s[0] == 48 ==> |s| == 1)
  {
    hide Digits, Number;
    DigitsParse(if n < 0 then -n else n, radix);
    if n == 0 {
      ZeroDigits(radix);
    }
  }

  lemma ZeroDigits(radix: nat)
    requires 2 <= radix <= 16
    ensures Digits(0, radix) == [48]
  {
  }

  /** "%s" prints the string, "%c" one byte, "%%" a percent sign and any other letter
      nothing; only the first two read an argument. */
  lemma OthersPrint(s: Text, i: int, c: Byte)
    ensures WellFormed([37, 115], [Str(s)]) && Expand([37, 115], [Str(s)]) == s
    ensures WellFormed([37, 99], [Int(i)]) && Expand([37, 99], [Int(i)]) == [i % 256]
    ensures WellFormed([37, 37], []) && Expand([37, 37], []) == [37]
    ensures c !in [115, 100, 105, 120, 112, 99, 37] ==> WellFormed([37, c], []) && Expand([37, c], []) == []
  {
    Single(115, Str(s));
    Single(99, Int(i));
    assert [37 as Byte, 37][2..] == [] && [37 as Byte, c][2..] == [];
    assert c !in [115, 100, 105, 120, 112, 99, 37] ==> !Takes(c) && c != 37;
  }

  /** The digits are "0123456789abcdef". */
  lemma DigitIs(v: nat)
    requires v < 16
    ensures Digit(v) == [48, 49, 50, 51, 52, 53, 54, 55, 56, 57, 97, 98, 99, 100, 101, 102][v]
  {
  }

  /** "%d" of 65 is "65". */
  lemma SixtyFive()
    ensures WellFormed([37, 100], [Int(65)]) && Expand([37, 100], [Int(65)]) == [54, 53]
  {
    Single(100, Int(65));
    assert Digits(6, 10) == [54];
    assert Digits(65, 10) == Digits(6, 10) + [53];
  }

  // ---------------------------------------------------------------- vsnprintf

  /** What the buffer holds once `done` has been produced: its first bytes, all of them
      unless the last usable position has been reached. */
  ghost predicate Progress(buf: seq<Byte>, size: nat, written: nat, done: seq<Byte>) {
    && 0 < size <= |buf| && written <= size && written <= |done|
    && (written < |done| ==> written >= size - 1)
    && buf[..Min(written, size - 1)] == done[..Min(written, size - 1)]
  }

  /** The branch of %s, %d and %x: copy what fits before the last position. */
  method EmitText(str: array<Byte>, size: nat, written: nat, text: seq<Byte>, ghost done: seq<Byte>) returns (w: nat)
    requires written < size && Progress(str[..], size, written, done)
    modifies str
    ensures Progress(str[..], size, w, done + text) && str[size..] == old(str[size..])
  {
    var len := |text|;
    if written + len >= size {
      len := size - written - 1;
    }
    ghost var before := str[..];
    MemCpy(str, written, text, 0, len);
    w := written + len;
    forall k | 0 <= k < Min(w, size - 1) ensures str[k] == (done + text)[k] {
      assert k < written ==> before[k] == before[..Min(written, size - 1)][k];
    }
    assert str[..][..Min(w, size - 1)] == (done + text)[..Min(w, size - 1)];
  }

  /** The branch of %c and %%: one byte, unless only the last position is left. */
  method EmitByte(str: array<Byte>, size: nat, written: nat, c: Byte, ghost done: seq<Byte>) returns (w: nat)
    requires written < size && Progress(str[..], size, written, done)
    modifies str
    ensures Progress(str[..], size, w, done + [c]) && str[size..] == old(str[size..])
  {
    w := written;
    if written + 1 < size {
      str[written] := c;
      w := written + 1;
    }
    ghost var m := Min(w, size - 1);
    assert str[..][..m] == (done + [c])[..m];
  }

  /** An ordinary character goes to the last position too; the NUL overwrites it there. */
  method EmitLiteral(str: array<Byte>, size: nat, written: nat, c: Byte, ghost done: seq<Byte>) returns (w: nat)
    requires written < size && Progress(str[..], size, written, done)
    modifies str
    ensures Progress(str[..], size, w, done + [c]) && str[size..] == old(str[size..])
  {
    str[written] := c;
    w := written + 1;
    ghost var m := Min(w, size - 1);
    assert str[..][..m] == (done + [c])[..m];
  }

  method EmitNumber(str: array<Byte>, size: nat, written: nat, num: int, radix: nat, ghost done: seq<Byte>)
      returns (w: nat)
    requires (radix == 10 || radix == 16) && -INT64_LIMIT < num < INT64_LIMIT && (radix == 16 ==> num >= 0)
    requires written < size && Progress(str[..], size, written, done)
    modifies str
    ensures Progress(str[..], size, w, done + Numeral(num, radix)) && str[size..] == old(str[size..])
  {
    hide Numeral;
    var buf := new Byte[32];
    Itoa(num, buf, radix);
    NumeralCanonical(num, radix);
    ghost var text := Numeral(num, radix);
    assert buf[..] == text + [0] + buf[|text| + 1..];
    CStringUnique(text, buf[|text| + 1..]);
    assert buf[..][|text|] == 0;
    var len := StrLen(buf[..]);
    w := EmitText(str, size, written, buf[..len], done);
  }

  method EmitConversion(str: array<Byte>, size: nat, written: nat, c: Byte, arg: Arg, ghost done: seq<Byte>)
    returns (w: nat)
    requires Takes(c) && Suits(c, arg)
    requires written < size && Progress(str[..], size, written, done)
    modifies str
    ensures Progress(str[..], size, w, done + Converted(c, arg)) && str[size..] == old(str[size..])
  {
    hide Progress, Numeral;
    if IsString(c) {
      CStringEnds(arg.s);
      assert arg.s[..|arg.s|] == arg.s;
      var len := StrLen(arg.s + [0]);
      w := EmitText(str, size, written, arg.s[..len], done);
    } else if IsDecimal(c) {
      w := EmitNumber(str, size, written, arg.i, 10, done);
    } else if IsHex(c) {
      w := EmitNumber(str, size, written, arg.w, 16, done);
    } else {
      w := EmitByte(str, size, written, arg.i % 256, done);
    }
  }

  /** Exactly the first min(length, size - 1) bytes of the expansion, then NUL, and no
      byte at or beyond `size` is written. */
  method VSnprintf(str: array<Byte>, size: nat, format: Text, args: seq<Arg>) returns (written: nat)
    requires size <= str.Length && WellFormed(format, args)
    modifies str
    ensures str[size..] == old(str[size..])
    ensures size > 0 ==>
              var n := Min(|Expand(format, args)|, size - 1);
              str[..n] == Expand(format, args)[..n] && str[n] == 0
    ensures written <= size
    ensures written < size ==> written == Min(|Expand(format, args)|, size - 1)
    ensures written == size > 0 ==> |Expand(format, args)| >= size
  {
    hide Expand, WellFormed, Progress;
    written := 0;
    if size == 0 {
      return;
    }
    ghost var all := Expand(format, args);
    ghost var done: seq<Byte> := [];
    var p, a := 0, 0;
    assert format[0..] == format && args[0..] == args;
    NothingYet(str[..], size, all);
    while p < |format| && written < size
      invariant 0 <= p <= |format| && 0 <= a <= |args|
      invariant WellFormed(format[p..], args[a..])
      invariant done + Expand(format[p..], args[a..]) == all
      invariant Progress(str[..], size, written, done)
      invariant str[size..] == old(str[size..])
      decreases |format| - p
    {
      Unfold(format, args, p, a);
      ghost var piece := Next(format[p..], args[a..]);
      if format[p] == PERCENT {
        p := p + 1;
        var c := format[p];
        if Takes(c) {
          written := EmitConversion(str, size, written, c, args[a], done);
          a := a + 1;
        } else if c == PERCENT {
          written := EmitByte(str, size, written, PERCENT, done);
        } else {
          assert done + [] == done;
        }
      } else {
        written := EmitLiteral(str, size, written, format[p], done);
      }
      p := p + 1;
      done := done + piece;
    }
    AtEnd(format, p, args[a..]);
    Finished(str[..], size, written, done, Expand(format[p..], args[a..]));
    if written < size {
      str[written] := 0;
    } else {
      str[size - 1] := 0;
    }
  }

  /** What the next format item contributes. */
  function Next(format: seq<Byte>, args: seq<Arg>): seq<Byte>
    requires format != [] && WellFormed(format, args)
  {
    if format[0] != PERCENT then [format[0]]
    else if Takes(format[1]) then Converted(format[1], args[0])
    else if format[1] == PERCENT then [PERCENT] else []
  }

  lemma Unfold(format: seq<Byte>, args: seq<Arg>, p: nat, a: nat)
    requires p < |format| && a <= |args| && WellFormed(format[p..], args[a..])
    ensures var item := if format[p] == PERCENT then 2 else 1;
            var takes := format[p] == PERCENT && p + 1 < |format| && Takes(format[p + 1]);
            var a' := if takes then a + 1 else a;
            && p + item <= |format| && a' <= |args|
            && (takes ==> Suits(format[p + 1], args[a]))
            && WellFormed(format[p + item..], args[a'..])
            && Expand(format[p..], args[a..]) == Next(format[p..], args[a..]) + Expand(format[p + item..], args[a'..])
            && format[p..][0] == format[p] && (item == 2 ==> format[p..][1] == format[p + 1])
            && (takes ==> args[a..][0] == args[a])
  {
    assert format[p..][1..] == format[p + 1..];
    if format[p] == PERCENT {
      assert |format[p..]| >= 2;
      assert format[p..][2..] == format[p + 2..];
      if Takes(format[p + 1]) {
        assert args[a..][1..] == args[a + 1..];
      }
    }
  }

  lemma NothingYet(buf: seq<Byte>, size: nat, all: seq<Byte>)
    requires 0 < size <= |buf|
    ensures Progress(buf, size, 0, []) && [] + all == all
  {
  }

  lemma AtEnd(format: seq<Byte>, p: nat, args: seq<Arg>)
    requires p <= |format| && WellFormed(format[p..], args)
    ensures p == |format| ==> Expand(format[p..], args) == []
  {
  }

  /** When the loop stops, the bytes before the terminator are the truncated expansion. */
  lemma Finished(buf: seq<Byte>, size: nat, written: nat, done: seq<Byte>, rest: seq<Byte>)
    requires Progress(buf, size, written, done)
    requires written < size ==> rest == []
    ensures var n := Min(|done + rest|, size - 1);
            && n < |buf| && buf[..n] == (done + rest)[..n]
            && (written < size ==> written == n)
            && (written == size ==> n == size - 1 && |done + rest| >= size)
            && 0 < size && written <= size
  {
    assert rest == [] ==> done + rest == done;
  }
}
