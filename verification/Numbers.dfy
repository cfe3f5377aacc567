/** Number printing of lib/lib.c: itoa, strrev and the numeric conversions of printf. */
module Numbers {
  import opened Bytes
  import CStrings

  const TWO32 := 0x1_0000_0000
  const MINUS: Byte := 45
  const ZERO: Byte := 48

  /** The lookup table: 0 to 9, then A to Z. */
  function Digit(d: nat): (c: Byte)
    requires d < 36
    ensures c != NUL && (c == ZERO <==> d == 0)
  {
    if d < 10 then 48 + d else 55 + d
  }

  /** What a digit stands for. */
  function ValueOf(c: Byte): int {
    if c < 65 then c - 48 else c - 55
  }

  /** The number that a string of digits denotes. */
  function Parse(s: seq<Byte>, radix: nat): int {
    if s == [] then 0 else Parse(s[..|s| - 1], radix) * radix + ValueOf(s[|s| - 1])
  }

  /** The digits, highest first; one digit at least. */
  function Digits(v: nat, radix: nat): (s: seq<Byte>)
    requires 2 <= radix <= 36
    ensures s != [] && NUL !in s
  {
    if v < radix then [Digit(v)] else Quotient(v, radix); Digits(v / radix, radix) + [Digit(v % radix)]
  }

  lemma Quotient(v: nat, radix: nat)
    requires 2 <= radix <= v
    ensures 0 < v / radix < v
  {
  }

  /** The digits as the loop finds them: lowest first, none for zero. */
  function LowFirst(v: nat, radix: nat): (s: seq<Byte>)
    requires 2 <= radix <= 36
    ensures NUL !in s
  {
    if v == 0 then [] else if v < radix then [Digit(v)]
    else Quotient(v, radix); [Digit(v % radix)] + LowFirst(v / radix, radix)
  }

  function Reversed(s: seq<Byte>): (r: seq<Byte>)
    ensures |r| == |s| && forall k :: 0 <= k < |s| ==> r[k] == s[|s| - 1 - k]
  {
    seq(|s|, k requires 0 <= k < |s| => s[|s| - 1 - k])
  }

  lemma ReversedCons(c: Byte, s: seq<Byte>)
    ensures Reversed([c] + s) == Reversed(s) + [c]
  {
  }

  lemma {:induction false} ReversedLowFirst(v: nat, radix: nat)
    requires 2 <= radix <= 36 && v > 0
    ensures Reversed(LowFirst(v, radix)) == Digits(v, radix)
  {
    if v >= radix {
      Quotient(v, radix);
      var q, d := v / radix, v % radix;
      ReversedLowFirst(q, radix);
      ReversedCons(Digit(d), LowFirst(q, radix));
    }
  }

  lemma ParseAppend(s: seq<Byte>, c: Byte, radix: nat)
    ensures Parse(s + [c], radix) == Parse(s, radix) * radix + ValueOf(c)
  {
    assert (s + [c])[..|s|] == s;
  }

  /** Reading the digits back gives the number. */
  lemma {:induction false} DigitsReadBack(v: nat, radix: nat)
    requires 2 <= radix <= 36
    ensures Parse(Digits(v, radix), radix) == v
  {
    if v < radix {
      assert [Digit(v)] == [] + [Digit(v)];
      ParseAppend([], Digit(v), radix);
    } else {
      Quotient(v, radix);
      var q, d := v / radix, v % radix;
      DigitsReadBack(q, radix);
      ParseAppend(Digits(q, radix), Digit(d), radix);
      DivMod(v, radix, q, d);
    }
  }

  lemma DivMod(v: nat, b: nat, q: nat, d: nat)
    requires b > 0 && q == v / b && d == v % b
    ensures v == q * b + d && d < b
  {
  }

  /** There is a leading zero exactly for zero itself, which is one digit. */
  lemma {:induction false} NoLeadingZero(v: nat, radix: nat)
    requires 2 <= radix <= 36
    ensures Digits(v, radix)[0] == ZERO <==> v == 0
    ensures v == 0 ==> Digits(v, radix) == [ZERO]
  {
    if v >= radix {
      Quotient(v, radix);
      NoLeadingZero(v / radix, radix);
    }
  }

  function Power(b: nat, n: nat): nat {
    if n == 0 then 1 else b * Power(b, n - 1)
  }

  /** n digits are enough exactly for the numbers below the n-th power of the radix. */
  lemma {:induction false} DigitCount(v: nat, radix: nat, n: nat)
    requires 2 <= radix <= 36 && n > 0
    ensures |Digits(v, radix)| <= n <==> v < Power(radix, n)
  {
    PowerPositive(radix, n - 1);
    if v < radix {
      assert Power(radix, n) >= radix * 1;
    } else {
      Quotient(v, radix);
      if n == 1 {
        assert Power(radix, 1) == radix;
      } else {
        DigitCount(v / radix, radix, n - 1);
        QuotientBelow(v, radix, Power(radix, n - 1));
      }
    }
  }

  lemma {:induction false} PowerPositive(b: nat, n: nat)
    requires b > 0
    ensures Power(b, n) >= 1
  {
    if n > 0 {
      PowerPositive(b, n - 1);
    }
  }

  lemma QuotientBelow(v: nat, b: nat, p: nat)
    requires b > 0
    ensures v / b < p <==> v < b * p
  {
    var q, d := v / b, v % b;
    DivMod(v, b, q, d);
    if q < p {
      TimesMonotone(q + 1, p, b);
    } else {
      TimesMonotone(p, q, b);
    }
  }

  lemma TimesMonotone(x: nat, y: nat, b: nat)
    requires x <= y
    ensures x * b <= y * b
  {
  }

  /** At most 32 digits print any 32-bit number, in any radix. */
  lemma {:induction false} AtMost32Digits(v: nat, radix: nat)
    requires v < TWO32 && 2 <= radix <= 36
    ensures |Digits(v, radix)| <= 32
  {
    BinaryIsLongest(v, radix);
    assert Power(2, 8) == 0x100 && Power(2, 16) == 0x1_0000 && Power(2, 24) == 0x100_0000 && Power(2, 32) == TWO32;
    DigitCount(v, 2, 32);
  }

  lemma {:induction false} BinaryIsLongest(v: nat, radix: nat)
    requires 2 <= radix <= 36
    ensures |Digits(v, radix)| <= |Digits(v, 2)|
  {
    DigitCount(v, 2, |Digits(v, 2)|);
    DigitCount(v, radix, |Digits(v, 2)|);
    PowerGrows(2, radix, |Digits(v, 2)|);
  }

  lemma {:induction false} PowerGrows(b: nat, c: nat, n: nat)
    requires b <= c
    ensures Power(b, n) <= Power(c, n)
  {
    if n > 0 {
      PowerGrows(b, c, n - 1);
      TimesMonotone(b, c, Power(b, n - 1));
      TimesMonotone(Power(b, n - 1), Power(c, n - 1), c);
    }
  }

  /** Eight hexadecimal digits print any 32-bit number. */
  lemma {:induction false} AtMost8HexDigits(v: nat)
    requires v < TWO32
    ensures |Digits(v, 16)| <= 8
  {
    assert Power(16, 4) == 0x1_0000 && Power(16, 8) == TWO32;
    DigitCount(v, 16, 8);
  }

  // ------------------------------------------------------------------ itoa

  /** Each byte of a region stands where its mirror image stood, and the rest of memory is as it was. */
  ghost predicate Mirrored(now: seq<Byte>, was: seq<Byte>, at: nat, len: nat)
    requires at + len <= |was|
  {
    && |now| == |was|
    && (forall k {:trigger now[k]} :: at <= k < at + len ==> now[k] == was[at + (at + len - 1) - k])
    && forall k {:trigger now[k]} :: 0 <= k < |now| && !(at <= k < at + len) ==> now[k] == was[k]
  }

  lemma MirroredIsReversed(now: seq<Byte>, was: seq<Byte>, at: nat, chars: seq<Byte>)
    requires at + |chars| <= |was| && was[at..at + |chars|] == chars && Mirrored(now, was, at, |chars|)
    ensures now == Stored(was, at, Reversed(chars))
  {
    var r := Reversed(chars);
    forall k | at <= k < at + |chars| ensures now[k] == r[k - at] {
      assert r[k - at] == chars[|chars| - 1 - (k - at)];
    }
  }

  /** strrev: the string at `at` is reversed in place. */
  method Strrev(buf: array<Byte>, at: nat)
    requires at <= buf.Length && Terminated(buf[at..])
    modifies buf
    ensures buf[..] == Stored(old(buf[..]), at, Reversed(CStr(old(buf[at..]))))
  {
    ghost var was, c := buf[..], CStr(buf[at..]);
    var len := CStrings.Strlen(buf[at..]);
    assert was[at..at + len] == c;
    SwapEnds(buf, at, len);
    MirroredIsReversed(buf[..], was, at, c);
  }

  /** The loop of strrev: its two indices meet in the middle. */
  method SwapEnds(buf: array<Byte>, at: nat, len: nat)
    requires at + len <= buf.Length
    modifies buf
    ensures Mirrored(buf[..], old(buf[..]), at, len)
  {
    ghost var was := buf[..];
    var beg, end: int := at, at + len;
    end := end - 1;
    ghost var sum := at + (at + len - 1);
    while beg < end
      invariant at <= beg <= end + 1 && beg + end == sum && end < at + len
      invariant forall k {:trigger buf[k]} :: at <= k < beg ==> buf[k] == was[sum - k]
      invariant forall k {:trigger buf[k]} :: end < k < at + len ==> buf[k] == was[sum - k]
      invariant forall k {:trigger buf[k]} :: 0 <= k < buf.Length && !(at <= k < beg) && !(end < k < at + len) ==> buf[k] == was[k]
    {
      var tmp := buf[end];
      buf[end] := buf[beg];
      buf[beg] := tmp;
      beg, end := beg + 1, end - 1;
    }
  }

  /** The digit loop of itoa and its NUL. */
  method StoreLowFirst(buf: array<Byte>, at: nat, value: nat, radix: nat)
    requires 2 <= radix <= 36 && at + |LowFirst(value, radix)| < buf.Length
    modifies buf
    ensures buf[..] == Stored(old(buf[..]), at, LowFirst(value, radix) + [NUL])
  {
    ghost var was, c := buf[..], LowFirst(value, radix);
    var newbuf: nat, newval: nat := at, value;
    while newval > 0
      invariant at <= newbuf && newbuf - at <= |c| && c[newbuf - at..] == LowFirst(newval, radix)
      invariant forall k {:trigger buf[k]} :: at <= k < newbuf ==> buf[k] == c[k - at]
      invariant forall k {:trigger buf[k]} :: 0 <= k < buf.Length && !(at <= k < newbuf) ==> buf[k] == was[k]
      decreases newval
    {
      NextDigit(c, newbuf - at, newval, radix);
      buf[newbuf] := Digit(newval % radix);
      newbuf, newval := newbuf + 1, newval / radix;
    }
    buf[newbuf] := NUL;
  }

  lemma NextDigit(c: seq<Byte>, k: nat, v: nat, radix: nat)
    requires 2 <= radix <= 36 && v > 0 && k <= |c| && c[k..] == LowFirst(v, radix)
    ensures 0 <= v / radix < v && v % radix < radix && k < |c|
    ensures c[k] == Digit(v % radix) && c[k + 1..] == LowFirst(v / radix, radix)
  {
    var q, d := v / radix, v % radix;
    DivMod(v, radix, q, d);
    if v < radix {
      QuotientBelow(v, radix, 1);
    } else {
      Quotient(v, radix);
    }
    assert LowFirst(v, radix) == [Digit(d)] + LowFirst(q, radix);
    assert c[k..][0] == c[k] && c[k..][1..] == c[k + 1..];
  }

  lemma StoredOver(m: seq<Byte>, at: nat, a: seq<Byte>, b: seq<Byte>)
    requires |a| == |b| && at + |a| < |m|
    ensures Stored(Stored(m, at, a + [NUL]), at, b) == Stored(m, at, b + [NUL])
  {
  }

  /** itoa writes the digits of the number, highest first, and a NUL. */
  method Itoa(buf: array<Byte>, at: nat, value: nat, radix: nat)
    requires value < TWO32 && 2 <= radix <= 36 && at + |Digits(value, radix)| < buf.Length
    modifies buf
    ensures buf[..] == Stored(old(buf[..]), at, Digits(value, radix) + [NUL])
  {
    if value == 0 {
      buf[at], buf[at + 1] := ZERO, NUL;
      return;
    }
    ghost var was, low := buf[..], LowFirst(value, radix);
    ReversedLowFirst(value, radix);
    StoreLowFirst(buf, at, value, radix);
    StoredString(was, at, low, buf[..]);
    assert buf[..][at..] == buf[at..];
    Strrev(buf, at);
    StoredOver(was, at, low, Digits(value, radix));
  }

  // ------------------------------------------------------------------ printf

  /** puts: the characters that reach the screen. */
  method Puts(s: seq<Byte>) returns (out: seq<Byte>)
    requires Terminated(s)
    ensures out == CStr(s)
  {
    var index := 0;
    out := [];
    while s[index] != NUL
      invariant index <= |CStr(s)| && out == s[..index]
      decreases |s| - index
    {
      out := out + [s[index]];
      index := index + 1;
    }
  }

  /** The number an unsigned 32-bit register holds. */
  function Unsigned(v: int): nat {
    v % TWO32
  }

  /** The number printed by %d: a minus sign and the digits of the negated value. */
  function Decimal(v: int): (s: seq<Byte>)
    requires -0x8000_0000 <= v < 0x8000_0000
    ensures s != []
  {
    if v < 0 then [MINUS] + Digits(-v, 10) else Digits(v, 10)
  }

  function ParseDecimal(s: seq<Byte>): int {
    if s != [] && s[0] == MINUS then -Parse(s[1..], 10) else Parse(s, 10)
  }

  /** %u and %x. The buffers have room: 36 and 64 cells. */
  method PrintUnsigned(convBuf: array<Byte>, value: nat, radix: nat) returns (out: seq<Byte>)
    requires value < TWO32 && convBuf.Length >= 36 && 2 <= radix <= 36
    modifies convBuf
    ensures out == Digits(value, radix)
  {
    AtMost32Digits(value, radix);
    ghost var was := convBuf[..];
    Itoa(convBuf, 0, value, radix);
    StoredString(was, 0, Digits(value, radix), convBuf[..]);
    out := Puts(convBuf[..]);
  }

  lemma StoredBehind(m: seq<Byte>, s: seq<Byte>)
    requires |s| + 1 < |m| && m[0] == MINUS
    ensures Stored(m, 1, s + [NUL]) == Stored(m, 0, [MINUS] + s + [NUL])
  {
  }

  /** The minus sign and the digits behind it. */
  method PrintNegative(convBuf: array<Byte>, magnitude: nat) returns (out: seq<Byte>)
    requires magnitude < TWO32 && convBuf.Length == 36
    modifies convBuf
    ensures out == [MINUS] + Digits(magnitude, 10)
  {
    AtMost32Digits(magnitude, 10);
    convBuf[0] := MINUS;
    ghost var was, digits := convBuf[..], Digits(magnitude, 10);
    Itoa(convBuf, 1, magnitude, 10);
    ghost var now := convBuf[..];
    StoredBehind(was, digits);
    StoredString(was, 0, [MINUS] + digits, now);
    assert now[0..] == now;
    out := Puts(convBuf[..]);
  }

  lemma UnsignedIs(v: nat)
    requires v < TWO32
    ensures Unsigned(v) == v
  {
  }

  /** %d negates in 32 bits, which is right for the least number too. */
  method PrintSigned(convBuf: array<Byte>, value: int) returns (out: seq<Byte>)
    requires -0x8000_0000 <= value < 0x8000_0000 && convBuf.Length == 36
    modifies convBuf
    ensures out == Decimal(value)
  {
    if value < 0 {
      UnsignedIs(-value);
      out := PrintNegative(convBuf, Unsigned(-value));
    } else {
      out := PrintUnsigned(convBuf, value, 10);
    }
  }

  /** At least eight digits. */
  function HexPadded(v: nat): seq<Byte> {
    Repeat(ZERO, if |Digits(v, 16)| <= 8 then 8 - |Digits(v, 16)| else 0) + Digits(v, 16)
  }

  /** The zeros run up to the first digit. */
  lemma PaddedString(m: seq<Byte>, digits: seq<Byte>, m1: seq<Byte>, n: nat, m2: seq<Byte>)
    requires |m| == 64 && |digits| == n <= 8 && NUL !in digits
    requires m1 == Stored(m, 8, digits + [NUL]) && m2 == Stored(m1, n, Repeat(ZERO, 8 - n))
    ensures Terminated(m2[n..]) && CStr(m2[n..]) == Repeat(ZERO, 8 - n) + digits
  {
    var s, padded := m2[n..], Repeat(ZERO, 8 - n) + digits;
    assert s[..8] == padded;
    CStrIs(s, 8);
  }

  /** The padding loop of %#x. */
  method PadWithZeros(convBuf: array<Byte>, start: nat)
    requires start <= 8 && convBuf.Length == 64
    modifies convBuf
    ensures convBuf[..] == Stored(old(convBuf[..]), start, Repeat(ZERO, 8 - start))
  {
    ghost var was := convBuf[..];
    for i := start to 8
      invariant forall k {:trigger convBuf[k]} :: start <= k < i ==> convBuf[k] == ZERO
      invariant forall k {:trigger convBuf[k]} :: 0 <= k < 64 && !(start <= k < i) ==> convBuf[k] == was[k]
    {
      convBuf[i] := ZERO;
    }
  }

  /** %#x: the digits are written at cell 8, and as many zeros as are missing to eight of them go into
      the cells right before cell 8; printing starts at the first of those zeros. */
  method PrintAlternateHex(convBuf: array<Byte>, value: nat) returns (out: seq<Byte>)
    requires value < TWO32 && convBuf.Length == 64
    modifies convBuf
    ensures out == HexPadded(value)
  {
    ghost var was, digits := convBuf[..], Digits(value, 16);
    AtMost8HexDigits(value);
    Itoa(convBuf, 8, value, 16);
    var written := convBuf[..];
    StoredString(was, 8, digits, written);
    var start := CStrings.Strlen(written[8..]);
    PadWithZeros(convBuf, start);
    var padded := convBuf[..];
    PaddedString(was, digits, written, start, padded);
    out := Puts(padded[start..]);
  }

  /** %#x prints exactly eight digits, and they denote the value. */
  lemma {:induction false} AlternateHexReadsBack(v: nat)
    requires v < TWO32
    ensures |HexPadded(v)| == 8 && Parse(HexPadded(v), 16) == v
  {
    AtMost8HexDigits(v);
    DigitsReadBack(v, 16);
    LeadingZeros(8 - |Digits(v, 16)|, Digits(v, 16), 16);
  }

  lemma {:induction false} LeadingZeros(n: nat, s: seq<Byte>, radix: nat)
    ensures Parse(Repeat(ZERO, n) + s, radix) == Parse(s, radix)
    decreases |s|, n
  {
    var z := Repeat(ZERO, n);
    if s != [] {
      var init, last := s[..|s| - 1], s[|s| - 1];
      assert (z + s)[..|z + s| - 1] == z + init && (z + s)[|z + s| - 1] == last;
      LeadingZeros(n, init, radix);
    } else if n > 0 {
      assert (z + s)[..n - 1] == Repeat(ZERO, n - 1) + s && (z + s)[n - 1] == ZERO;
      LeadingZeros(n - 1, s, radix);
    }
  }

  /** %d reads back, for negative numbers and the least one too. */
  lemma DecimalReadsBack(v: int)
    requires -0x8000_0000 <= v < 0x8000_0000
    ensures ParseDecimal(Decimal(v)) == v
  {
    if v < 0 {
      DigitsReadBack(-v, 10);
      assert Decimal(v)[1..] == Digits(-v, 10);
    } else {
      DigitsReadBack(v, 10);
      NotMinus(v);
    }
  }

  lemma {:induction false} NotMinus(v: nat)
    ensures Digits(v, 10)[0] != MINUS
  {
    if v >= 10 {
      NotMinus(v / 10);
    }
  }

  // ------------------------------------------------------------------ the characters themselves

  /** The lookup table of itoa. */
  const LOOKUP := "0123456789ABCDEFGHIJKLMNOPQRSTUVWXYZ"

  lemma DigitIsLookup(d: nat)
    requires d < 36
    ensures |LOOKUP| == 36 && Digit(d) == LOOKUP[d] as int && ValueOf(LOOKUP[d] as int) == d
  {
  }

  lemma DivisionIs(v: nat, m: nat, r: nat, x: nat)
    requires x < m && v == m * r + x
    ensures v / m == r
  {
    DivMod(v, m, v / m, v % m);
    if v / m < r {
      TimesMonotone(v / m + 1, r, m);
    } else if v / m > r {
      TimesMonotone(r + 1, v / m, m);
    }
  }

  lemma DivideTwice(v: nat, b: nat, p: nat)
    requires b > 0 && p > 0
    ensures b * p > 0 && v / b / p == v / (b * p)
  {
    var q, d := v / b, v % b;
    var r, e := q / p, q % p;
    DivMod(v, b, q, d);
    DivMod(q, p, r, e);
    calc {
      v;
    ==
      (r * p + e) * b + d;
    ==
      (b * p) * r + (e * b + d);
    }
    TimesMonotone(e + 1, p, b);
    DivisionIs(v, b * p, r, e * b + d);
  }

  /** The character at each place of a printed number is the one that the lookup table has for the digit of
      that place. */
  lemma {:induction false} DigitAtPlace(v: nat, radix: nat, k: nat)
    requires 2 <= radix <= 36 && k < |Digits(v, radix)|
    ensures var weight := Power(radix, |Digits(v, radix)| - 1 - k);
            weight > 0 && v / weight % radix < |LOOKUP| && Digits(v, radix)[k] == LOOKUP[v / weight % radix] as int
  {
    var n := |Digits(v, radix)|;
    PowerPositive(radix, n - 1 - k);
    if k == n - 1 {
      LastDigit(v, radix);
      assert v / 1 == v;
    } else {
      Quotient(v, radix);
      DigitAtPlace(v / radix, radix, k);
      PowerPositive(radix, n - 2 - k);
      DivideTwice(v, radix, Power(radix, n - 2 - k));
    }
  }

  lemma LastDigit(v: nat, radix: nat)
    requires 2 <= radix <= 36
    ensures Digits(v, radix)[|Digits(v, radix)| - 1] == LOOKUP[v % radix] as int
  {
    DigitIsLookup(v % radix);
    if v < radix {
      SmallRemainder(v, radix);
    }
  }

  lemma SmallRemainder(v: nat, b: nat)
    requires v < b
    ensures v % b == v
  {
  }

  /** The minus sign and the padding zero. */
  lemma SignAndZero(v: int)
    requires -0x8000_0000 <= v < 0x8000_0000
    ensures v < 0 ==> Decimal(v)[0] == '-' as int && Decimal(v)[1..] == Digits(-v, 10)
    ensures v >= 0 ==> Decimal(v) == Digits(v, 10)
    ensures forall k :: 0 <= k < |HexPadded(Unsigned(v))| - |Digits(Unsigned(v), 16)| ==> HexPadded(Unsigned(v))[k] == '0' as int
  {
  }

  /** Two numbers never print alike. */
  lemma DigitsAreDistinct(v: nat, w: nat, radix: nat)
    requires 2 <= radix <= 36 && Digits(v, radix) == Digits(w, radix)
    ensures v == w
  {
    DigitsReadBack(v, radix);
    DigitsReadBack(w, radix);
  }
}
