/** serial.c: the logger's own number conversions, proved to print what printk prints. */
module Serial {
  import opened Words
  import opened Numerals
  import opened NumberField
  import opened Directives

  // ----- What printk prints for the same directives ----------------------------------

  /** A directive on its own. */
  lemma RenderOne(p: Piece, w: u64)
    requires p.Dir? && Proper(p)
    ensures Render(Show(p), [Word(w)]) == Convert(SpecOf(p), [Word(w)]).0
  {
    RenderShow([p], [Word(w)]);
    assert ShowAll([p]) == Show(p) + "" == Show(p);
    assert RenderPieces([p], [Word(w)]) == Convert(SpecOf(p), [Word(w)]).0 + "";
  }

  /** An integer directive with no precision. */
  lemma RenderInteger(p: Piece, f: Flags, w: u64, width: u32)
    requires p.Dir? && Proper(p) && IsInteger(p.conv)
    requires SpecOf(p) == Spec(f, if width == 0 then Absent else Given(width), Absent, p.conv)
    ensures Render(Show(p), [Word(w)]) == IntegerText(p.conv, w, f, width, 0)
  {
    hide Show, Render, SpecOf, Proper, IntegerText;
    RenderOne(p, w);
  }

  lemma UnsignedText(c: char, v: u64, f: Flags, width: u32)
    requires c in "uoxX" && v < Modulus(f)
    ensures IntegerText(c, v, f, width, 0) == Field(v, false, Base(c), 0, width, IntegerFlags(c, f))
  {
    hide Field;
    DivModUnique(v, Modulus(f), 0, v);
  }

  lemma PlainField(v: u64, base: nat, f: Flags)
    requires 8 <= base <= 16 && !f.left && !f.hash && !f.zeropad && !f.precision && !f.plus && !f.space
    ensures Field(v, false, base, 0, 0, f) == Digits(v, base, f.upper)
  {
    hide Field, Digits, NtoaDigits;
    FieldMeetsC11(v, false, base, 0, 0, f);
    var d := Digits(v, base, f.upper);
    assert Rep('0', -|d|) + d == d;
    assert Rep(' ', -|d|) + ("" + d) == d;
  }

  lemma PlainShown(length: string, c: char)
    requires length in ["", "l", "ll"] && c in "uoxX"
    ensures var p := Dir("", Absent, Unset, length, c);
      && Proper(p) && Show(p) == "%" + length + [c]
      && SpecOf(p) == Spec(WithLength(LengthOf(length).0, NO_FLAGS), Absent, Absent, c)
  {
  }

  lemma PlainFlags(length: string, c: char, v: u64)
    requires length in ["", "l", "ll"] && c in "uoxX" && (length == "" ==> v < TWO32)
    ensures var f := WithLength(LengthOf(length).0, NO_FLAGS);
      var g := IntegerFlags(c, f);
      && v < Modulus(f) && g.upper == (c == 'X')
      && !g.left && !g.hash && !g.zeropad && !g.precision && !g.plus && !g.space
  {
  }

  /** "%u", "%o", "%x", "%X", with or without a length, print the bare numeral. */
  lemma PlainUnsigned(length: string, c: char, v: u64)
    requires length in ["", "l", "ll"] && c in "uoxX" && (length == "" ==> v < TWO32)
    ensures Render("%" + length + [c], [Word(v)]) == Digits(v, Base(c), c == 'X')
  {
    hide Render, Show, SpecOf, Proper, Field, Digits, IntegerText, WithLength, LengthOf, IntegerFlags, Modulus;
    PlainShown(length, c);
    PlainFlags(length, c, v);
    var f := WithLength(LengthOf(length).0, NO_FLAGS);
    RenderInteger(Dir("", Absent, Unset, length, c), f, v, 0);
    UnsignedText(c, v, f, 0);
    PlainField(v, Base(c), IntegerFlags(c, f));
  }

  /** Decimal digits filled up to four characters. */
  function FourWide(v: nat): (r: string) { Rep('0', 4 - |Digits(v, 10, false)|) + Digits(v, 10, false) }

  lemma PaddedShown(c: char)
    requires c in "ud"
    ensures var p := Dir("0", Given(4), Unset, "", c);
      && Proper(p) && Show(p) == (if c == 'u' then "%04u" else "%04d")
      && SpecOf(p) == Spec(ZERO_FLAG, Given(4), Absent, c)
      && IntegerFlags(c, ZERO_FLAG) == ZERO_FLAG
  {
    assert Digits(4, 10, false) == "4";
    assert FlagsOf("0", NO_FLAGS) == FlagsOf("", WithFlag(NO_FLAGS, '0'));
  }

  const ZERO_FLAG := NO_FLAGS.(zeropad := true)

  /** Zero-padded to four, the sign comes first. */
  lemma PaddedField(v: u64, neg: bool)
    ensures Field(v, neg, 10, 0, 4, ZERO_FLAG) ==
      (if neg then "-" else "") + (Rep('0', 4 - (if neg then 1 else 0) - |Digits(v, 10, false)|) + Digits(v, 10, false))
  {
    hide Field, Digits, NtoaDigits;
    FieldMeetsC11(v, neg, 10, 0, 4, ZERO_FLAG);
    var d := Digits(v, 10, false);
    assert Rep('0', -|d|) + d == d;
  }

  /** "%04u" prints at least four digits. */
  lemma PaddedUnsigned(v: u32)
    ensures Render("%04u", [Word(v)]) == FourWide(v)
  {
    hide Render, Show, SpecOf, Proper, Field, Digits, IntegerText, IntegerFlags;
    PaddedShown('u');
    RenderInteger(Dir("0", Given(4), Unset, "", 'u'), ZERO_FLAG, v, 4);
    UnsignedText('u', v, ZERO_FLAG, 4);
    PaddedField(v, false);
    assert "" + FourWide(v) == FourWide(v);
  }

  /** "%04d" prints at least four characters, the sign first. */
  lemma PaddedSigned(v: int, w: u64)
    requires -0x8000_0000 <= v < 0x8000_0000 && v == Signed(w, TWO32)
    ensures Render("%04d", [Word(w)]) == (if v < 0 then "-" else "") +
      (Rep('0', 4 - (if v < 0 then 1 else 0) - |Digits(Abs(v), 10, false)|) + Digits(Abs(v), 10, false))
  {
    hide Render, Show, SpecOf, Proper, Field, Digits, IntegerFlags;
    PaddedShown('d');
    RenderInteger(Dir("0", Given(4), Unset, "", 'd'), ZERO_FLAG, w, 4);
    PaddedField(Abs(v), v < 0);
  }

  /** The digits the loop leaves, padded and turned around. */
  lemma FourWideBackwards(v: nat, r: string, size: nat)
    requires size > 0 && v < Power(10, size) && r == (if v == 0 then "" else RevDigits(v, 10, false, size))
    ensures Reverse(r + Rep('0', 4 - |r|)) == FourWide(v)
  {
    ReverseConcat(r, Rep('0', 4 - |r|));
    assert Reverse(Rep('0', 4 - |r|)) == Rep('0', 4 - |r|);
    if v == 0 {
      assert Digits(0, 10, false) == "0" && Rep('0', 4) == Rep('0', 3) + "0";
    } else {
      RevDigitsAll(v, 10, false, size);
    }
  }

  lemma TenDigits()
    ensures TWO32 <= Power(10, 10) <= Power(10, 16)
  {
  }

  // ----- Loops on a local buffer -----------------------------------------------------

  /** The digit loop. */
  method DigitsBackwards(buf: array<char>, v: u64, base: nat, upper: bool) returns (i: nat)
    requires 2 <= base <= 16 && v > 0 && buf.Length > 0 && v < Power(base, buf.Length)
    modifies buf
    ensures i <= buf.Length && buf[..i] == RevDigits(v, base, upper, buf.Length)
  {
    hide RevDigits;
    i := 0;
    var value: nat := v;
    ghost var all := RevDigits(v, base, upper, buf.Length);
    while value > 0
      invariant i <= buf.Length
      invariant value > 0 ==> i < buf.Length && value < Power(base, buf.Length - i) &&
                              buf[..i] + RevDigits(value, base, upper, buf.Length - i) == all
      invariant value == 0 ==> buf[..i] == all
      decreases value
    {
      ghost var before := buf[..i];
      RevDigitsStep(value, base, upper, buf.Length - i);
      DivBelow(value, base, Power(base, buf.Length - i - 1));
      DivSmaller(value, base);
      buf[i] := DigitChar(value % base, upper);
      assert buf[..i + 1] == before + [DigitChar(value % base, upper)];
      i := i + 1;
      value := value / base;
      if value > 0 { assert Power(base, 0) == 1; }
    }
  }

  /** The swap loop that turns buf[..i] around. */
  method ReverseInPlace(buf: array<char>, i: nat)
    requires i <= buf.Length
    modifies buf
    ensures buf[..i] == Reverse(old(buf[..i])) && buf[i..] == old(buf[i..])
  {
    var j := 0;
    while j < i / 2
      invariant j <= i / 2
      invariant forall k :: 0 <= k < j ==> buf[k] == old(buf[i - 1 - k]) && buf[i - 1 - k] == old(buf[k])
      invariant forall k :: j <= k < i - j ==> buf[k] == old(buf[k])
      invariant forall k :: i <= k < buf.Length ==> buf[k] == old(buf[k])
    {
      buf[j], buf[i - 1 - j] := buf[i - 1 - j], buf[j];
      j := j + 1;
    }
  }

  /** The loop that fills up to four characters. */
  method PadToFour(buf: array<char>, i: nat) returns (i': nat)
    requires i <= buf.Length && buf.Length >= 4
    modifies buf
    ensures i' == Max(i, 4) && i' <= buf.Length && buf[..i'] == old(buf[..i]) + Rep('0', 4 - i)
  {
    i' := i;
    while i' < 4
      invariant i <= i' <= Max(i, 4) && buf[..i'] == old(buf[..i]) + Rep('0', i' - i)
    {
      buf[i'] := '0';
      i' := i' + 1;
    }
  }

  // ----- The log ---------------------------------------------------------------------

  class Port {
    var written: string // everything sent to COM1

    /** serial_write_char for each character of buf up to the zero at i. */
    method WriteBuffer(buf: array<char>, i: nat)
      requires i < buf.Length && buf[i] == '\0' && '\0' !in buf[..i]
      modifies this
      ensures written == old(written) + buf[..i]
    {
      var j := 0;
      while buf[j] != '\0'
        invariant j <= i && written == old(written) + buf[..j]
        decreases i - j
      {
        assert buf[..j + 1] == buf[..j] + [buf[j]];
        written := written + [buf[j]];
        j := j + 1;
      }
    }

    /** The digits of value, as serial_write_hex, serial_write_octal and "%llu" find them:
        "0" for 0, else the digit loop, the swap loop and a zero at the end. */
    method WriteDigits(value: u64, base: nat, upper: bool, size: nat)
      requires 2 <= base <= 16 && size > 1 && value < Power(base, size - 1)
      modifies this
      ensures written == old(written) + Digits(value, base, upper)
    {
      var buf := new char[size];
      var i := 0;
      OnlyDigits(value, base, upper, '\0');
      PowerPositive(base, size - 1);
      assert value < Power(base, size) by { MulAtLeast(base, Power(base, size - 1)); }
      if value == 0 {
        buf[0] := '0';
        i := 1;
      } else {
        i := DigitsBackwards(buf, value, base, upper);
        RevDigitsLength(value, base, upper, size, size - 1);
        RevDigitsAll(value, base, upper, size);
      }
      ReverseInPlace(buf, i);
      assert buf[..i] == Digits(value, base, upper);
      buf[i] := '\0';
      WriteBuffer(buf, i);
    }

    /** serial_write_uint prints what printk prints for "%04u". */
    method serial_write_uint(value: u32)
      modifies this
      ensures written == old(written) + Render("%04u", [Word(value)])
    {
      hide Render, Digits, RevDigits, Power, Reverse;
      var buf := new char[16];
      var i := 0;
      TenDigits();
      if value != 0 {
        i := DigitsBackwards(buf, value, 10, false);
        RevDigitsLength(value, 10, false, 16, 10);
      }
      FourWideBackwards(value, buf[..i], 16);
      i := PadToFour(buf, i);
      ReverseInPlace(buf, i);
      OnlyDigits(value, 10, false, '\0');
      ghost var text := buf[..i];
      assert text == FourWide(value);
      buf[i] := '\0';
      assert buf[..i] == text;
      PaddedUnsigned(value);
      WriteBuffer(buf, i);
    }

    /** serial_write_hex prints what printk prints for "%lx" or "%lX"; its buffer holds 15
        digits and the zero. */
    method serial_write_hex(value: u64, uppercase: bool)
      requires value < 0x1000_0000_0000_0000
      modifies this
      ensures written == old(written) + Render(if uppercase then "%lX" else "%lx", [Word(value)])
      ensures value < TWO32 ==> written == old(written) + Render(if uppercase then "%X" else "%x", [Word(value)])
    {
      hide Render, Digits, Power;
      FifteenHex();
      var c := if uppercase then 'X' else 'x';
      PlainUnsigned("l", c, value);
      assert "%" + "l" + [c] == if uppercase then "%lX" else "%lx";
      if value < TWO32 {
        PlainUnsigned("", c, value);
        assert "%" + "" + [c] == if uppercase then "%X" else "%x";
      }
      WriteDigits(value, 16, uppercase, 16);
    }

    /** serial_write_octal prints what printk prints for "%o". */
    method serial_write_octal(value: u32)
      modifies this
      ensures written == old(written) + Render("%o", [Word(value)])
    {
      hide Render, Digits, Power;
      FifteenOctal();
      PlainUnsigned("", 'o', value);
      assert "%" + "" + ['o'] == "%o";
      WriteDigits(value, 8, false, 16);
    }

    /** The "%llu" branch of serial_fwrite prints what printk prints. */
    method WriteLongLong(value: u64)
      modifies this
      ensures written == old(written) + Render("%llu", [Word(value)])
    {
      hide Render, Digits, Power;
      ThirtyOneDigits();
      PlainUnsigned("ll", 'u', value);
      assert "%" + "ll" + ['u'] == "%llu";
      WriteDigits(value, 10, false, 32);
    }
  }

  lemma FifteenHex()
    ensures Power(16, 15) == 0x1000_0000_0000_0000
  {
    assert Power(16, 5) == 0x10_0000;
    PowerAdd(16, 5, 5);
    PowerAdd(16, 10, 5);
  }

  /** A value takes all 16 bytes of serial_write_hex's buffer, and leaves none for the zero, if
      and only if it is 2^60 or more. */
  lemma SixteenHex(v: u64, upper: bool)
    ensures |RevDigits(v, 16, upper, 16)| == 16 <==> v >= 0x1000_0000_0000_0000
  {
    hide Power, RevDigits;
    FifteenHex();
    if v < Power(16, 15) {
      RevDigitsLength(v, 16, upper, 16, 15);
    } else {
      RevDigitsAtLeast(v, 16, upper, 16, 16);
    }
  }

  lemma FifteenOctal()
    ensures Power(8, 15) >= TWO32
  {
    assert Power(8, 5) == 0x8000;
    PowerAdd(8, 5, 5);
    PowerAdd(8, 10, 5);
  }

  lemma ThirtyOneDigits()
    ensures Power(10, 31) >= TWO64
  {
    SixtyFourBits(10);
    PowerAdd(10, 24, 7);
    assert Power(10, 7) == 10000000;
  }

  // ----- serial_i2s ------------------------------------------------------------------

  const INT_MIN := -0x8000_0000

  /** A fresh conversion. Negating the least int leaves it as it is, so it has no digits. */
  function I2S(v: int): (r: string)
    requires INT_MIN <= v < 0x8000_0000
  {
    if v >= 0 then FourWide(v)
    else
      var d := if v == INT_MIN then "" else Digits(-v, 10, false);
      Rep('0', 4 - (|d| + 1)) + ("-" + d)
  }

  /** serial_i2s prints an int as printk's "%04d" does exactly when it is not negative or has
      at least three digits to its sign. */
  lemma I2SMeetsPrintk(v: int, w: u64)
    requires INT_MIN <= v < 0x8000_0000 && v == Signed(w, TWO32)
    ensures I2S(v) == Render("%04d", [Word(w)]) <==> v >= 0 || INT_MIN < v <= -100
  {
    hide Render, Digits;
    PaddedSigned(v, w);
    var text, d := Render("%04d", [Word(w)]), Digits(Abs(v), 10, false);
    DecimalLength(Abs(v));
    if v >= 0 {
      assert text == "" + FourWide(v) == FourWide(v);
    } else if INT_MIN < v <= -100 {
      assert Rep('0', 3 - |d|) == "" && Rep('0', 4 - (|d| + 1)) == "";
      assert I2S(v) == "-" + d == text;
    } else {
      assert I2S(v)[0] == '0' && text[0] == '-';
    }
  }

  /** The numbers on which they differ: the sign comes behind the filling zeros, and the least
      int has no digits. */
  lemma I2SShort(v: int)
    requires INT_MIN <= v < 0
    ensures v == INT_MIN ==> I2S(v) == "000-"
    ensures -10 < v ==> I2S(v) == "00-" + Digits(-v, 10, false)
    ensures -100 < v <= -10 ==> I2S(v) == "0-" + Digits(-v, 10, false)
  {
    assert Rep('0', 3) == "000" && Rep('0', 2) == "00" && Rep('0', 1) == "0";
    OneOrTwoDigits(-v);
  }

  lemma OneOrTwoDigits(n: nat)
    requires n > 0
    ensures n < 10 ==> |Digits(n, 10, false)| == 1
    ensures 10 <= n < 100 ==> |Digits(n, 10, false)| == 2
  {
  }

  lemma DecimalLength(n: nat)
    ensures |Digits(n, 10, false)| >= 3 <==> n >= 100
  {
  }

  lemma ZeroIsFourZeros()
    ensures I2S(0) == "0000"
  {
  }

  class Memo {
    const temp: array<char>
    var last_value: int
    var initialized: bool

    /** Once initialised, temp holds the conversion of last_value. */
    ghost predicate Valid()
      reads this, temp
    {
      && temp.Length == 16
      && (initialized ==> INT_MIN <= last_value < 0x8000_0000 && |I2S(last_value)| < 16 &&
                          temp[..|I2S(last_value)|] == I2S(last_value) && temp[|I2S(last_value)|] == '\0')
    }

    constructor ()
      ensures Valid()
    {
      temp := new char[16];
      last_value, initialized := 0, false;
    }

    /** The conversion of a value other than 0. */
    method Fill(value: int) returns (i: nat)
      requires temp.Length == 16 && INT_MIN <= value < 0x8000_0000 && value != 0
      modifies temp
      ensures i < 16 && temp[..i] == I2S(value) && temp[i] == '\0'
    {
      hide Digits, RevDigits, Power, I2S, Reverse, Rep;
      var v := if value < 0 then (if value == INT_MIN then value else -value) else value;
      i := 0;
      if v > 0 {
        TenDigits();
        i := DigitsBackwards(temp, v, 10, false);
        RevDigitsLength(v, 10, false, 16, 10);
      }
      ghost var r := temp[..i];
      if value < 0 {
        temp[i] := '-';
        i := i + 1;
        assert temp[..i] == r + "-";
      }
      I2SBackwards(value, r);
      i := PadToFour(temp, i);
      ReverseInPlace(temp, i);
      ghost var text := temp[..i];
      temp[i] := '\0';
      assert temp[..i] == text;
    }

    /** serial_i2s: whatever was converted before, temp ends up as a fresh conversion. */
    method serial_i2s(value: int)
      requires Valid() && INT_MIN <= value < 0x8000_0000
      modifies this, temp
      ensures Valid() && initialized && last_value == value
    {
      if initialized && value == last_value { return; }
      last_value := value;
      initialized := true;
      if value == 0 {
        temp[0], temp[1], temp[2], temp[3], temp[4] := '0', '0', '0', '0', '\0';
        ZeroIsFourZeros();
        assert temp[..4] == I2S(0);
      } else {
        hide I2S;
        var i := Fill(value);
      }
    }
  }

  lemma ReverseSignThenZeros(r: string, z: int)
    ensures Reverse((r + "-") + Rep('0', z)) == Rep('0', z) + ("-" + Reverse(r))
  {
  }

  /** The digits the loop leaves, signed, padded and turned around. */
  lemma I2SBackwards(value: int, r: string)
    requires INT_MIN <= value < 0x8000_0000 && value != 0
    requires r == if value == INT_MIN then "" else RevDigits(Abs(value), 10, false, 16)
    ensures var t := if value < 0 then r + "-" else r; Reverse(t + Rep('0', 4 - |t|)) == I2S(value)
  {
    hide Digits, RevDigits, Power, Reverse;
    TenDigits();
    if value > 0 {
      FourWideBackwards(value, r, 16);
    } else {
      ReverseSignThenZeros(r, 4 - (|r| + 1));
      if value > INT_MIN { RevDigitsAll(-value, 10, false, 16); }
    }
  }
}
