/** Numerals: the digits the conversion loops produce, and what they read back as. */
module Numerals {
  import opened Words

  const BUFFER_SIZE := 32 // PRINTF_NTOA_BUFFER_SIZE

  function Rep(c: char, n: int): (s: string)
    ensures |s| == if n > 0 then n else 0
    ensures forall k :: 0 <= k < |s| ==> s[k] == c
  {
    seq(if n > 0 then n else 0, _ => c)
  }

  function Reverse(s: string): (r: string)
    ensures |r| == |s| && forall k :: 0 <= k < |s| ==> r[k] == s[|s| - 1 - k]
  {
    seq(|s|, k requires 0 <= k < |s| => s[|s| - 1 - k])
  }

  function DigitChar(d: nat, upper: bool): (r: char)
    requires d < 16
  {
    if d < 10 then ('0' as int + d) as char
    else ((if upper then 'A' as int else 'a' as int) + d - 10) as char
  }

  /** The value of a digit in the given base, if c is one. */
  function DigitValue(c: char, base: nat): (r: int) {
    var v := if '0' <= c <= '9' then c as int - '0' as int
             else if 'a' <= c <= 'f' then c as int - 'a' as int + 10
             else if 'A' <= c <= 'F' then c as int - 'A' as int + 10
             else -1;
    if v < base then v else -1
  }

  /** A numeral as a reader takes it: digits count, padding and signs are passed over. */
  function Value(s: string, base: nat): (r: nat) {
    if s == "" then 0
    else
      var d, rest := DigitValue(s[|s| - 1], base), Value(s[..|s| - 1], base);
      if d >= 0 then rest * base + d else rest
  }

  function Power(base: nat, n: nat): (r: nat)
    decreases n, base
  {
    if n == 0 then 1 else base * Power(base, n - 1)
  }

  lemma PowerStep(base: nat, n: nat)
    ensures Power(base, n) == if n == 0 then 1 else base * Power(base, n - 1)
  {
  }

  /** The digits of v, least significant first, as many as the conversion loop has room for. */
  function RevDigits(v: nat, base: nat, upper: bool, room: nat): (r: string)
    requires 2 <= base <= 16 && room > 0
    ensures 1 <= |r| <= room
    decreases room, v
  {
    [DigitChar(v % base, upper)] + if v / base != 0 && room > 1 then RevDigits(v / base, base, upper, room - 1) else []
  }

  lemma RevDigitsStep(v: nat, base: nat, upper: bool, room: nat)
    requires 2 <= base <= 16 && room > 0
    ensures v / base >= 0 && 0 <= v % base < base
    ensures RevDigits(v, base, upper, room) == [DigitChar(v % base, upper)] +
              if v / base != 0 && room > 1 then RevDigits(v / base, base, upper, room - 1) else []
  {
  }

  /** The usual numeral: most significant digit first, no leading zeros. */
  function Digits(v: nat, base: nat, upper: bool): (s: string)
    requires 2 <= base <= 16
    ensures |s| >= 1
  {
    if v < base then [DigitChar(v, upper)] else Digits(v / base, base, upper) + [DigitChar(v % base, upper)]
  }

  lemma DigitRoundTrip(d: nat, base: nat, upper: bool)
    requires d < base <= 16
    ensures DigitValue(DigitChar(d, upper), base) == d
  {
  }

  lemma ReverseConcat(s: string, t: string)
    ensures Reverse(s + t) == Reverse(t) + Reverse(s)
  {
  }

  lemma DivSmaller(v: nat, base: nat)
    requires base >= 2 && v >= 1
    ensures v / base < v && v == base * (v / base) + v % base
  {
  }

  lemma DivBelow(v: nat, base: nat, p: nat)
    requires base > 0 && v < base * p
    ensures v / base < p
  {
  }

  lemma DigitsStep(v: nat, base: nat, upper: bool)
    requires 2 <= base <= 16
    ensures v / base >= 0 && 0 <= v % base < base
    ensures Digits(v, base, upper) ==
            if v < base then [DigitChar(v, upper)] else Digits(v / base, base, upper) + [DigitChar(v % base, upper)]
  {
  }

  lemma SmallQuotient(v: nat, base: nat)
    requires base > 0
    ensures v / base != 0 ==> v >= base
  {
    if v < base { DivModUnique(v, base, 0, v); }
  }

  lemma OneBackwards(c: char)
    ensures Reverse([c]) == [c]
  {
  }

  /** With room for all of them, the loop's digits are the numeral reversed. */
  lemma {:induction false} RevDigitsAll(v: nat, base: nat, upper: bool, room: nat)
    requires 2 <= base <= 16 && room > 0 && v < Power(base, room)
    ensures Reverse(RevDigits(v, base, upper, room)) == Digits(v, base, upper)
    decreases room
  {
    hide Power, RevDigits, Digits, Reverse;
    RevDigitsStep(v, base, upper, room);
    DigitsStep(v, base, upper);
    PowerStep(base, room);
    if v / base == 0 {
      DivModUnique(v, base, 0, v);
      OneBackwards(DigitChar(v % base, upper));
      assert v < base;
    } else {
      var q, c := v / base, DigitChar(v % base, upper);
      DivBelow(v, base, Power(base, room - 1));
      PowerStep(base, room - 1);
      RevDigitsAll(q, base, upper, room - 1);
      ReverseConcat([c], RevDigits(q, base, upper, room - 1));
      OneBackwards(c);
      SmallQuotient(v, base);
    }
  }

  lemma ModPower(v: nat, base: nat, p: nat)
    requires base >= 2 && p > 0
    ensures base * p > 0 && v % (base * p) == v / base % p * base + v % base
  {
    QuotientRemainder(v, base);
    QuotientRemainder(v / base, p);
    ModOfSum(v / base / p, v / base % p, v % base, base, p);
  }

  lemma QuotientRemainder(v: nat, d: nat)
    requires d > 0
    ensures v / d >= 0 && 0 <= v % d < d && v == d * (v / d) + v % d == v / d * d + v % d
  {
  }

  lemma ModOfSum(q: nat, r: nat, m: nat, base: nat, p: nat)
    requires r < p && m < base
    ensures base * p > 0 && (base * (q * p + r) + m) % (base * p) == r * base + m
  {
    Regrouped(q, r, m, base, p);
    Below(r, m, base, p);
    DivModUnique(base * (q * p + r) + m, base * p, q, r * base + m);
  }

  lemma Regrouped(q: nat, r: nat, m: nat, base: nat, p: nat)
    ensures base * (q * p + r) + m == q * (base * p) + (r * base + m)
  {
    assert base * (q * p) == q * (base * p);
  }

  lemma Below(r: nat, m: nat, base: nat, p: nat)
    requires r < p && m < base
    ensures r * base + m < base * p
  {
    MulAtLeast(p - r, base);
    assert (p - r) * base == base * p - r * base;
  }

  lemma {:induction false} PowerPositive(base: nat, n: nat)
    requires base >= 1
    ensures Power(base, n) >= 1
  {
    if n > 0 {
      PowerPositive(base, n - 1);
      MulAtLeast(base, Power(base, n - 1));
    }
  }

  lemma ValueLowest(d: nat, more: string, base: nat, upper: bool)
    requires d < base <= 16
    ensures Value(Reverse([DigitChar(d, upper)] + more), base) == Value(Reverse(more), base) * base + d
  {
    ReverseConcat([DigitChar(d, upper)], more);
    DigitRoundTrip(d, base, upper);
    ValueSnoc(Reverse(more), DigitChar(d, upper), base);
    assert Reverse([DigitChar(d, upper)]) == [DigitChar(d, upper)];
  }

  lemma ModOfNothing(q: nat, p: nat)
    requires p >= 1 && (q == 0 || p == 1)
    ensures q % p == 0
  {
  }

  /** Read back, the loop's digits are the value modulo base^room. */
  lemma {:induction false} RevDigitsValue(v: nat, base: nat, upper: bool, room: nat)
    requires 2 <= base <= 16 && room > 0
    ensures Power(base, room) > 0
    ensures Value(Reverse(RevDigits(v, base, upper, room)), base) == v % Power(base, room)
    decreases room
  {
    var q, p := v / base, Power(base, room - 1);
    var more := if q != 0 && room > 1 then RevDigits(q, base, upper, room - 1) else [];
    PowerPositive(base, room);
    PowerPositive(base, room - 1);
    ModPower(v, base, p);
    ValueLowest(v % base, more, base, upper);
    if q != 0 && room > 1 {
      RevDigitsValue(q, base, upper, room - 1);
    } else {
      ModOfNothing(q, p);
      assert Reverse(more) == [];
    }
    assert Value(Reverse(more), base) == q % p;
  }

  lemma ValueSnoc(s: string, c: char, base: nat)
    ensures Value(s + [c], base) ==
            if DigitValue(c, base) >= 0 then Value(s, base) * base + DigitValue(c, base) else Value(s, base)
  {
  }

  predicate NoDigits(s: string, base: nat) { forall k :: 0 <= k < |s| ==> DigitValue(s[k], base) < 0 }

  /** Padding after a numeral does not change what it reads as. */
  lemma {:induction false} ValueTrailing(s: string, t: string, base: nat)
    requires NoDigits(t, base)
    ensures Value(s + t, base) == Value(s, base)
    decreases |t|
  {
    if t == "" {
      assert s + t == s;
    } else {
      ValueTrailing(s, t[..|t| - 1], base);
      ValueSnoc(s + t[..|t| - 1], t[|t| - 1], base);
      assert s + t == s + t[..|t| - 1] + [t[|t| - 1]];
    }
  }

  /** Nor does whatever reads as zero before it. */
  lemma {:induction false} ValueLeading(p: string, s: string, base: nat)
    requires Value(p, base) == 0
    ensures Value(p + s, base) == Value(s, base)
    decreases |s|
  {
    if s == "" {
      assert p + s == p;
    } else {
      ValueLeading(p, s[..|s| - 1], base);
      ValueSnoc(p + s[..|s| - 1], s[|s| - 1], base);
      assert p + s == p + s[..|s| - 1] + [s[|s| - 1]];
    }
  }

  lemma {:induction false} ZerosReadZero(n: int, base: nat)
    requires base >= 1
    ensures Value(Rep('0', n), base) == 0
    decreases if n > 0 then n else 0
  {
    if n > 0 {
      ZerosReadZero(n - 1, base);
      assert Rep('0', n) == Rep('0', n - 1) + ['0'];
      ValueSnoc(Rep('0', n - 1), '0', base);
    }
  }

  lemma {:induction false} PowerAdd(base: nat, m: nat, n: nat)
    ensures Power(base, m + n) == Power(base, m) * Power(base, n)
  {
    if m > 0 {
      PowerAdd(base, m - 1, n);
      assert base * (Power(base, m - 1) * Power(base, n)) == Power(base, m) * Power(base, n);
    }
  }

  lemma MulMonotone(a: nat, b: nat, x: nat, y: nat)
    requires a <= b && x <= y
    ensures a * x <= b * y
  {
  }

  lemma {:induction false} PowerMonotone(a: nat, b: nat, n: nat)
    requires a <= b
    ensures Power(a, n) <= Power(b, n)
  {
    if n > 0 {
      PowerMonotone(a, b, n - 1);
      MulMonotone(a, b, Power(a, n - 1), Power(b, n - 1));
    }
  }

  /** 64-bit values have at most 24 digits in bases 8, 10 and 16. */
  lemma SixtyFourBits(base: nat)
    requires 8 <= base
    ensures Power(base, 24) >= TWO64 && Power(base, 32) >= TWO64
  {
    PowerMonotone(8, base, 24);
    PowerMonotone(8, base, 32);
    assert Power(8, 4) == 0x1000;
    PowerAdd(8, 4, 4);
    assert Power(8, 8) == 0x100_0000;
    PowerAdd(8, 8, 8);
    assert Power(8, 16) == 0x1_0000_0000_0000;
    PowerAdd(8, 16, 8);
    PowerAdd(8, 16, 16);
  }

  lemma {:induction false} RevDigitsLength(v: nat, base: nat, upper: bool, room: nat, n: nat)
    requires 2 <= base <= 16 && 0 < n <= room && v < Power(base, n)
    ensures |RevDigits(v, base, upper, room)| <= n
    decreases room
  {
    hide Power, RevDigits;
    PowerStep(base, n);
    RevDigitsStep(v, base, upper, room);
    if v / base != 0 && room > 1 {
      DivBelow(v, base, Power(base, n - 1));
      PowerStep(base, n - 1);
      RevDigitsLength(v / base, base, upper, room - 1, n - 1);
    }
  }

  lemma {:induction false} RevDigitsAtLeast(v: nat, base: nat, upper: bool, room: nat, n: nat)
    requires 2 <= base <= 16 && 0 < n <= room && (n == 1 || v >= Power(base, n - 1))
    ensures |RevDigits(v, base, upper, room)| >= n
    decreases n
  {
    hide Power, RevDigits;
    RevDigitsStep(v, base, upper, room);
    if n > 1 {
      PowerStep(base, n - 1);
      PowerPositive(base, n - 2);
      DivAtLeast(v, base, Power(base, n - 2));
      RevDigitsAtLeast(v / base, base, upper, room - 1, n - 1);
    }
  }

  lemma DivAtLeast(v: nat, base: nat, p: nat)
    requires base > 0 && v >= base * p
    ensures v / base >= p
  {
    var q := v / base;
    assert v < base * (q + 1);
    if q < p { MulMonotone(base, base, q + 1, p); }
  }

  /** The leading digit is not zero unless the value is. */
  lemma {:induction false} LeadingDigit(v: nat, base: nat, upper: bool, room: nat)
    requires 2 <= base <= 16 && room > 0 && 0 < v < Power(base, room)
    ensures var r := RevDigits(v, base, upper, room); DigitValue(r[|r| - 1], base) > 0
    decreases room
  {
    if v / base != 0 {
      DivBelow(v, base, Power(base, room - 1));
      assert Power(base, 0) == 1;
      LeadingDigit(v / base, base, upper, room - 1);
    } else {
      DivModUnique(v, base, 0, v);
      DigitRoundTrip(v, base, upper);
    }
  }

  // ----- What a numeral looks like ---------------------------------------------------

  /** The sixteen digits, as the logger's tables have them. */
  function Table(upper: bool): (t: string)
    ensures |t| == 16
  {
    if upper then "0123456789ABCDEF" else "0123456789abcdef"
  }

  lemma DigitInTable(d: nat, upper: bool)
    requires d < 16
    ensures DigitChar(d, upper) == Table(upper)[d]
  {
  }

  lemma DivDiv(v: nat, a: nat, b: nat)
    requires a > 0 && b > 0
    ensures a * b > 0 && v / a / b == v / (a * b)
  {
    QuotientRemainder(v, a);
    QuotientRemainder(v / a, b);
    var q, r, m := v / a / b, v / a % b, v % a;
    Regrouped(q, r, m, a, b);
    Below(r, m, a, b);
    DivModUnique(v, a * b, q, r * a + m);
  }

  /** The digit of v for base^i. */
  function Place(v: nat, base: nat, i: nat): (d: nat)
    requires base >= 2
    ensures d < base
  {
    PowerPositive(base, i);
    v / Power(base, i) % base
  }

  lemma PlaceOne(v: nat, base: nat)
    requires base >= 2
    ensures Place(v, base, 0) == v % base
  {
    DivModUnique(v, 1, v, 0);
  }

  lemma PlaceNext(v: nat, base: nat, i: nat)
    requires base >= 2
    ensures v / base >= 0 && Place(v, base, i + 1) == Place(v / base, base, i)
  {
    PowerPositive(base, i);
    PowerStep(base, i + 1);
    hide Power;
    DivDiv(v, base, Power(base, i));
  }

  /** Place i of a numeral, counted from the right, is the digit for base^i. */
  lemma {:induction false} DigitAt(v: nat, base: nat, upper: bool, i: nat)
    requires 2 <= base <= 16 && i < |Digits(v, base, upper)|
    ensures Digits(v, base, upper)[|Digits(v, base, upper)| - 1 - i] == Table(upper)[Place(v, base, i)]
    decreases i
  {
    hide Digits, DigitChar, Place, Table;
    DigitsStep(v, base, upper);
    SmallRemainder(v, base);
    DigitInTable(v % base, upper);
    if i == 0 {
      PlaceOne(v, base);
    } else {
      PlaceNext(v, base, i - 1);
      DigitAt(v / base, base, upper, i - 1);
    }
  }

  lemma SmallRemainder(v: nat, base: nat)
    requires base > 0
    ensures v / base >= 0 && 0 <= v % base < base && (v < base ==> v % base == v)
  {
    if v < base { DivModUnique(v, base, 0, v); }
  }

  /** It has as many places as the value needs. */
  lemma {:induction false} DigitsNeeded(v: nat, base: nat, upper: bool)
    requires 2 <= base <= 16
    ensures var n := |Digits(v, base, upper)|; v < Power(base, n) && (n > 1 ==> v >= Power(base, n - 1))
    decreases v
  {
    hide Power, Digits;
    DigitsStep(v, base, upper);
    var n := |Digits(v, base, upper)|;
    if v < base {
      PowerOne(base);
    } else {
      DivSmaller(v, base);
      DigitsNeeded(v / base, base, upper);
      BetweenPowers(v, base, n - 1);
    }
  }

  lemma PowerOne(base: nat)
    ensures Power(base, 0) == 1 && Power(base, 1) == base
  {
  }

  lemma BetweenPowers(v: nat, base: nat, n: nat)
    requires base >= 2 && n >= 1 && v >= base && v / base >= 0
    requires v / base < Power(base, n) && (n > 1 ==> v / base >= Power(base, n - 1))
    ensures v < Power(base, n + 1) && v >= Power(base, n)
  {
    hide Power;
    QuotientRemainder(v, base);
    PowerStep(base, n + 1);
    PowerStep(base, n);
    PowerOne(base);
    BelowTimes(v / base, v % base, base, Power(base, n));
    if n > 1 { AboveTimes(v / base, v % base, base, Power(base, n - 1)); }
  }

  lemma BelowTimes(q: nat, m: nat, base: nat, p: nat)
    requires m < base && q < p
    ensures base * q + m < base * p
  {
    MulMonotone(base, base, q + 1, p);
  }

  lemma AboveTimes(q: nat, m: nat, base: nat, p: nat)
    requires q >= p
    ensures base * q + m >= base * p
  {
    MulMonotone(base, base, p, q);
  }
}
