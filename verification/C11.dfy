/** What section 7.21.6.1 of ISO C11 asks of a directive as it is written, for the System V ABI of
    x86-64: a definition of its own, that uses none of the code's scanning, flags or arguments. */
module C11 {
  import opened Words
  import opened Wrappers
  import opened Numerals
  import opened NumberField
  import opened Directives

  // ----- Arguments -------------------------------------------------------------------

  function WordAt(args: seq<Arg>, i: nat): (w: u64) {
    if i < |args| && args[i].Word? then args[i].w else 0
  }

  function TextAt(args: seq<Arg>, i: nat): (s: string) {
    if i < |args| && args[i].Text? then args[i].s else ""
  }

  /** The signed number that the low bits of a word stand for. */
  function TwosComplement(w: nat, bits: nat): (v: int) {
    var m := Pow2(bits);
    if bits > 0 && w % m >= Pow2(bits - 1) then w % m - m else w % m
  }

  function IntAt(args: seq<Arg>, i: nat): (v: int) { TwosComplement(WordAt(args, i), 32) }

  // ----- The parts of a directive ----------------------------------------------------

  /** The stars of a directive, each of which takes an int before the value. */
  function Stars(p: Piece): (n: nat)
    requires p.Dir?
  {
    (if p.width == Star then 1 else 0) + (if p.prec == Dot(Star) then 1 else 0)
  }

  /** The conversions that take a value. */
  predicate TakesValue(c: char) {
    || c == 'd' || c == 'i' || c == 'o' || c == 'u' || c == 'x' || c == 'X' || c == 'b'
    || c == 'c' || c == 's' || c == 'p'
  }

  /** How many arguments a piece of a format takes. */
  function Uses(p: Piece): (n: nat) {
    if p.Lit? then 0 else Stars(p) + if TakesValue(p.conv) then 1 else 0
  }

  predicate IsSigned(c: char) { c == 'd' || c == 'i' }
  predicate IsHex(c: char) { c == 'x' || c == 'X' }
  predicate IsUnsigned(c: char) { c == 'o' || c == 'u' || IsHex(c) }

  predicate LeftJustified(p: Piece, args: seq<Arg>)
    requires p.Dir?
  {
    '-' in p.flags || (p.width == Star && IntAt(args, 0) < 0)
  }

  function Width(p: Piece, args: seq<Arg>): (n: nat)
    requires p.Dir?
  {
    match p.width
    case Absent => 0
    case Given(n) => n
    case Star => var w := IntAt(args, 0); if w < 0 then -w else w
  }

  /** None: as if no precision were given. */
  function Precision(p: Piece, args: seq<Arg>): (n: Option<nat>)
    requires p.Dir?
  {
    match p.prec
    case Unset => None
    case Dot(Absent) => Some(0)
    case Dot(Given(n)) => Some(n)
    case Dot(Star) => var v := IntAt(args, if p.width == Star then 1 else 0); if v < 0 then None else Some(v)
  }

  /** The bits of the type a length modifier names. */
  function Bits(length: string): (n: nat) {
    if length == "hh" then 8 else if length == "h" then 16 else if length == "" then 32 else 64
  }

  /** The number an integer directive is to print. */
  function Number(p: Piece, args: seq<Arg>): (v: int)
    requires p.Dir?
  {
    var w := WordAt(args, Stars(p));
    if IsSigned(p.conv) then TwosComplement(w, Bits(p.length)) else w % Pow2(Bits(p.length))
  }

  function Radix(conv: char): (b: nat)
    ensures 8 <= b <= 16
  {
    if IsHex(conv) then 16 else if conv == 'o' then 8 else 10
  }

  /** The sign of a signed conversion, the 0x of a hexadecimal one with '#'. */
  function Mark(p: Piece, v: int): (s: string)
    requires p.Dir?
  {
    if IsSigned(p.conv) then (if v < 0 then "-" else if '+' in p.flags then "+" else if ' ' in p.flags then " " else "")
    else if '#' in p.flags && v != 0 && IsHex(p.conv) then ['0', p.conv]
    else ""
  }

  /** The digits with the zeros that precision or '#' put before them. */
  function Figures(p: Piece, prec: Option<nat>, v: nat): (s: string)
    requires p.Dir?
  {
    var d := if prec == Some(0) && v == 0 then "" else Digits(v, Radix(p.conv), p.conv == 'X');
    var z := Rep('0', (if prec.Some? then prec.value else 0) - |d|) + d;
    if '#' in p.flags && p.conv == 'o' && (z == "" || z[0] != '0') then "0" + z else z
  }

  /** Text in its field: '-' before '0' before spaces to the left. */
  function Justified(p: Piece, args: seq<Arg>, mark: string, text: string, zeros: bool): (s: string)
    requires p.Dir?
  {
    var pad := Width(p, args) - |mark| - |text|;
    if LeftJustified(p, args) then (mark + text) + Rep(' ', pad)
    else if zeros && '0' in p.flags then mark + (Rep('0', pad) + text)
    else Rep(' ', pad) + (mark + text)
  }

  function IntegerOutput(p: Piece, args: seq<Arg>): (s: string)
    requires p.Dir?
  {
    var v, prec := Number(p, args), Precision(p, args);
    Justified(p, args, Mark(p, v), Figures(p, prec, Abs(v)), prec.None?)
  }

  /** What C11 asks a directive to print. */
  function Output(p: Piece, args: seq<Arg>): (s: string)
    requires p.Dir?
  {
    var i := Stars(p);
    if IsSigned(p.conv) || IsUnsigned(p.conv) then IntegerOutput(p, args)
    else if p.conv == 'c' then Justified(p, args, "", [(WordAt(args, i) % 0x100) as char], false)
    else if p.conv == 's' then
      var s, n := TextAt(args, i), Precision(p, args);
      Justified(p, args, "", if n.Some? && n.value < |s| then s[..n.value] else s, false)
    else [p.conv]
  }

  // ----- The code finds the same parts -------------------------------------------------

  lemma SignedIs(w: nat, bits: nat)
    requires bits > 0
    ensures Pow2(bits) >= 2 && Signed(w, Pow2(bits)) == TwosComplement(w, bits)
  {
    assert Pow2(bits) == 2 * Pow2(bits - 1);
  }

  /** The two's-complement reading is the one number of its range that agrees with the bits. */
  lemma TwosComplementIs(w: nat, bits: nat)
    requires bits > 0
    ensures Pow2(bits) == 2 * Pow2(bits - 1)
    ensures 0 - Pow2(bits - 1) <= TwosComplement(w, bits) < Pow2(bits - 1)
    ensures (TwosComplement(w, bits) - w) % Pow2(bits) == 0
  {
    var m, q := Pow2(bits), w / Pow2(bits);
    QuotientRemainder(w, m);
    var k := if w % m >= Pow2(bits - 1) then -q - 1 else -q;
    assert TwosComplement(w, bits) - w == k * m;
    DivModUnique(k * m, m, k, 0);
  }

  lemma ArgumentsAre(args: seq<Arg>)
    ensures WordArg(args) == WordAt(args, 0) && TextArg(args) == TextAt(args, 0)
    ensures WordArg(Rest(args)) == WordAt(args, 1) && TextArg(Rest(args)) == TextAt(args, 1)
    ensures WordArg(Rest(Rest(args))) == WordAt(args, 2) && TextArg(Rest(Rest(args))) == TextAt(args, 2)
  {
  }

  lemma IntsAre(args: seq<Arg>)
    ensures Signed(WordArg(args), TWO32) == IntAt(args, 0)
    ensures Signed(WordArg(Rest(args)), TWO32) == IntAt(args, 1)
  {
    hide Signed, WordArg, Rest, WordAt, TwosComplement;
    ArgumentsAre(args);
    Pow2Sizes();
    SignedIs(WordAt(args, 0), 32);
    SignedIs(WordAt(args, 1), 32);
  }

  /** Width, precision and the place of the value, stars filled in. */
  lemma ResolvedAmounts(p: Piece, args: seq<Arg>)
    requires p.Dir? && Proper(p)
    ensures var (f, width, prec, rest) := C11Resolve(SpecOf(p), args);
      && width == Width(p, args) && prec == (if Precision(p, args).Some? then Precision(p, args).value else 0)
      && WordArg(rest) == WordAt(args, Stars(p)) && TextArg(rest) == TextAt(args, Stars(p))
      && (PrecisionBelow0(SpecOf(p), args) <==> p.prec == Dot(Star) && Precision(p, args).None?)
  {
    hide Proper, FlagsOf, WithLength, LengthOf, WordArg, TextArg, Rest, WordAt, TextAt, IntAt, Signed;
    ArgumentsAre(args);
    IntsAre(args);
  }

  /** The flags, as C11 has them. */
  lemma ResolvedFlags(p: Piece, args: seq<Arg>)
    requires p.Dir? && Proper(p)
    ensures C11Resolve(SpecOf(p), args).0 ==
      AsResolved(SpecOf(p).flags, p.width == Star && IntAt(args, 0) < 0, Precision(p, args).Some?)
  {
    hide Proper, SpecOf, Resolve, Precision, AsResolved, IntAt;
    SpecPrecision(p);
    CodeFlags(p, args);
    ResolvedAmounts(p, args);
    PrecisionGiven(p, args);
    PrecisionOff(SpecOf(p).flags, p.width == Star && IntAt(args, 0) < 0);
  }

  function AsResolved(f: Flags, left: bool, precision: bool): (g: Flags) {
    f.(left := f.left || left, precision := precision)
  }

  lemma PrecisionOff(f: Flags, left: bool)
    ensures AsResolved(f, left, f.precision).(precision := false) == AsResolved(f, left, false)
  {
  }

  lemma CodeFlags(p: Piece, args: seq<Arg>)
    requires p.Dir? && Proper(p)
    ensures Resolve(SpecOf(p), args).0 ==
      AsResolved(SpecOf(p).flags, p.width == Star && IntAt(args, 0) < 0, SpecOf(p).flags.precision)
  {
    hide Proper, FlagsOf, WithLength, LengthOf, WordArg, Rest, IntAt, Signed;
    IntsAre(args);
  }

  lemma PrecisionGiven(p: Piece, args: seq<Arg>)
    requires p.Dir?
    ensures Precision(p, args).None? <==> p.prec == Unset || (p.prec == Dot(Star) && Precision(p, args).None?)
  {
  }

  lemma SpecPrecision(p: Piece)
    requires p.Dir? && Proper(p)
    ensures SpecOf(p).flags.precision == (p.prec != Unset)
    ensures SpecOf(p).width == p.width && SpecOf(p).conv == p.conv
    ensures SpecOf(p).prec == Absent <==> p.prec == Unset
    ensures SpecOf(p).prec == Star <==> p.prec == Dot(Star)
  {
    hide Proper, FlagsOf, LengthOf;
  }

  /** The flags of a written directive are the characters it is written with. */
  lemma WrittenFlags(p: Piece)
    requires p.Dir? && Proper(p)
    ensures var f := SpecOf(p).flags;
      && f.left == ('-' in p.flags) && f.plus == ('+' in p.flags) && f.space == (' ' in p.flags)
      && f.hash == ('#' in p.flags) && f.zeropad == ('0' in p.flags) && !f.upper
  {
    hide FlagsOf, WithLength, LengthOf;
    assert AllFlags(p.flags);
    var g := FlagsOf(p.flags, NO_FLAGS);
    hide Proper;
    LeftSet(p.flags, NO_FLAGS);
    PlusSet(p.flags, NO_FLAGS);
    SpaceSet(p.flags, NO_FLAGS);
    HashSet(p.flags, NO_FLAGS);
    ZeroSet(p.flags, NO_FLAGS);
    OthersUnset(p.flags, NO_FLAGS);
    LengthKeeps(LengthOf(p.length).0, g.(precision := p.prec != Unset));
  }

  lemma LengthKeeps(l: Length, f: Flags)
    ensures var g := WithLength(l, f);
      && g.left == f.left && g.plus == f.plus && g.space == f.space && g.hash == f.hash && g.zeropad == f.zeropad
      && g.upper == f.upper
  {
  }

  /** The bits of the type that is named. */
  lemma WrittenLength(p: Piece)
    requires p.Dir? && Proper(p)
    ensures Modulus(SpecOf(p).flags) == Pow2(Bits(p.length)) && Pow2(Bits(p.length)) >= 2
  {
    hide FlagsOf, WithLength, LengthOf, Modulus, Pow2;
    assert AllFlags(p.flags);
    assert p.length in ["", "h", "hh", "l", "ll", "t", "j", "z"];
    hide Proper;
    OthersUnset(p.flags, NO_FLAGS);
    var g := FlagsOf(p.flags, NO_FLAGS).(precision := p.prec != Unset);
    LengthModulus(p.length, g);
  }

  lemma LengthModulus(length: string, f: Flags)
    requires length in ["", "h", "hh", "l", "ll", "t", "j", "z"] && !f.hh && !f.h && !f.l && !f.ll
    ensures Modulus(WithLength(LengthOf(length).0, f)) == Pow2(Bits(length)) && Pow2(Bits(length)) >= 2
  {
    hide Pow2;
    Pow2Sizes();
    SixteenBits();
  }

  lemma SixteenBits()
    ensures Pow2(16) == 0x1_0000
  {
    Pow2Add(8, 8);
  }

  lemma ModulusOf(f: Flags, left: bool, precision: bool)
    ensures Modulus(AsResolved(f, left, precision)) == Modulus(f)
  {
  }

  // ----- Integers --------------------------------------------------------------------

  predicate IntegerPiece(p: Piece) {
    && p.Dir? && Proper(p) && (IsSigned(p.conv) || IsUnsigned(p.conv))
    && ('#' in p.flags ==> p.conv == 'o' || IsHex(p.conv))
  }

  /** The flags that count for an integer, by the characters written. */
  predicate FlagsAgree(p: Piece, args: seq<Arg>, g: Flags)
    requires p.Dir?
  {
    && g.left == LeftJustified(p, args) && g.zeropad == ('0' in p.flags && Precision(p, args).None?)
    && g.plus == ('+' in p.flags && IsSigned(p.conv)) && g.space == (' ' in p.flags && IsSigned(p.conv))
    && g.hash == ('#' in p.flags) && g.upper == (p.conv == 'X') && g.precision == Precision(p, args).Some?
  }

  lemma IntegerFlagsAgree(p: Piece, args: seq<Arg>)
    requires IntegerPiece(p)
    ensures FlagsAgree(p, args, IntegerFlags(p.conv, C11Resolve(SpecOf(p), args).0))
  {
    var f := SpecOf(p).flags;
    hide Proper, SpecOf, C11Resolve, Precision, IntAt;
    WrittenFlags(p);
    ResolvedFlags(p, args);
    FlagsOfInteger(p.conv, f, p.width == Star && IntAt(args, 0) < 0, Precision(p, args).Some?);
  }

  lemma FlagsOfInteger(c: char, f: Flags, left: bool, precision: bool)
    requires !f.upper && (IsSigned(c) || IsUnsigned(c))
    ensures var g := IntegerFlags(c, AsResolved(f, left, precision));
      && g.left == (f.left || left) && g.zeropad == (f.zeropad && !precision) && g.plus == (f.plus && IsSigned(c))
      && g.space == (f.space && IsSigned(c)) && g.hash == (f.hash && (c == 'o' || IsHex(c)))
      && g.upper == (c == 'X') && g.precision == precision
  {
  }

  lemma IntegerNumber(p: Piece, args: seq<Arg>)
    requires IntegerPiece(p)
    ensures var (f, width, prec, rest) := C11Resolve(SpecOf(p), args);
      var w := WordArg(rest);
      && Number(p, args) == (if p.conv == 'd' || p.conv == 'i' then Signed(w, Modulus(f)) else w % Modulus(f))
      && Base(p.conv) == Radix(p.conv) && Abs(Number(p, args)) < TWO64
  {
    hide Proper, SpecOf, C11Resolve, Precision, WordArg, WordAt, Modulus, Signed, TwosComplement, Width;
    ResolvedAmounts(p, args);
    ResolvedFlags(p, args);
    ModulusOf(SpecOf(p).flags, p.width == Star && IntAt(args, 0) < 0, Precision(p, args).Some?);
    WrittenLength(p);
    SignedIs(WordAt(args, Stars(p)), Bits(p.length));
    NumberBound(WordAt(args, Stars(p)), Bits(p.length));
  }

  lemma NumberBound(w: u64, bits: nat)
    requires bits == 8 || bits == 16 || bits == 32 || bits == 64
    ensures Abs(TwosComplement(w, bits)) < TWO64 && 0 <= w % Pow2(bits) < TWO64
  {
    Pow2Sizes();
    SixteenBits();
  }

  /** The amounts the code works with. */
  function PrecisionOr0(p: Piece, args: seq<Arg>): (n: nat)
    requires p.Dir?
  {
    if Precision(p, args).Some? then Precision(p, args).value else 0
  }

  lemma JustifyAgrees(p: Piece, args: seq<Arg>, g: Flags, mark: string, text: string)
    requires IntegerPiece(p) && FlagsAgree(p, args, g)
    ensures C11Justify(mark, text, Width(p, args), g) == Justified(p, args, mark, text, Precision(p, args).None?)
  {
    hide Proper, Width, Precision, LeftJustified, Rep;
  }

  lemma PlainFigures(p: Piece, args: seq<Arg>, g: Flags, v: u64)
    requires IntegerPiece(p) && FlagsAgree(p, args, g) && !('#' in p.flags)
    ensures C11Digits(v, Radix(p.conv), PrecisionOr0(p, args), g) == Figures(p, Precision(p, args), v)
  {
    hide Proper, Precision, LeftJustified, Digits;
    assert Rep('0', 0) + "" == "";
  }

  lemma OutputPlain(p: Piece, args: seq<Arg>, g: Flags)
    requires IntegerPiece(p) && FlagsAgree(p, args, g) && !('#' in p.flags) && Abs(Number(p, args)) < TWO64
    ensures var v := Number(p, args);
      C11Field(Abs(v), v < 0, Radix(p.conv), PrecisionOr0(p, args), Width(p, args), g) == IntegerOutput(p, args)
  {
    hide Proper, Width, Precision, C11Digits, Figures, C11Justify, Justified;
    var v := Number(p, args);
    UnsignedIsNotNegative(p, args);
    hide Number;
    assert SignText(v < 0, g) == Mark(p, v);
    PlainFigures(p, args, g, Abs(v));
    JustifyAgrees(p, args, g, Mark(p, v), Figures(p, Precision(p, args), Abs(v)));
  }

  lemma UnsignedIsNotNegative(p: Piece, args: seq<Arg>)
    requires p.Dir?
    ensures !IsSigned(p.conv) ==> Number(p, args) >= 0
  {
  }

  lemma OutputHash(p: Piece, args: seq<Arg>, g: Flags)
    requires IntegerPiece(p) && FlagsAgree(p, args, g) && '#' in p.flags && Abs(Number(p, args)) < TWO64
    ensures var v := Number(p, args);
      && v >= 0
      && C11HashField(v, Radix(p.conv), PrecisionOr0(p, args), Width(p, args), g) == IntegerOutput(p, args)
  {
    hide Proper, Width, Precision, C11Justify, Justified, Digits;
    var v := Number(p, args);
    UnsignedIsNotNegative(p, args);
    hide Number;
    assert Rep('0', 0) + "" == "";
    HashMark(p, g, v);
    JustifyAgrees(p, args, g, Mark(p, v), Figures(p, Precision(p, args), v));
  }

  lemma HashMark(p: Piece, g: Flags, v: nat)
    requires p.Dir? && IsUnsigned(p.conv) && '#' in p.flags && g.upper == (p.conv == 'X')
    ensures Mark(p, v) == if IsHex(p.conv) && v != 0 then HexMark(g) else ""
  {
  }

  // ----- When the code meets C11 -----------------------------------------------------

  /** The precision argument is negative. */
  predicate Below0(p: Piece, args: seq<Arg>)
    requires p.Dir?
  {
    p.prec == Dot(Star) && Precision(p, args).None?
  }

  /** The figures of the number alone. */
  function Numeral(p: Piece, args: seq<Arg>): (d: string)
    requires p.Dir?
  {
    Digits(Abs(Number(p, args)), Radix(p.conv), p.conv == 'X')
  }

  /** The integer directives the code gets right, by what is written and passed. */
  predicate IntegerFits(p: Piece, args: seq<Arg>)
    requires p.Dir?
  {
    var v, w, prec, left := Number(p, args), Width(p, args), Precision(p, args), LeftJustified(p, args);
    var zeros := '0' in p.flags && prec.None?;
    var n := if prec.Some? && v == 0 then 0 else |Numeral(p, args)|;
    if Below0(p, args) then
      v != 0 && (left || '0' !in p.flags ||
                 w <= |Mark(p, v)| + |Numeral(p, args)| + if '#' in p.flags && p.conv == 'o' then 1 else 0)
    else if '#' in p.flags && v != 0 then HashFitsWritten(n, Radix(p.conv), prec, w, left, zeros)
    else
      && (if left then PrecisionOr0(p, args) <= n else if zeros then w <= BUFFER_SIZE
          else PrecisionFits(Mark(p, v), PrecisionOr0(p, args), w))
      && !('#' in p.flags && p.conv == 'o' && prec == Some(0))
  }

  predicate HashFitsWritten(n: nat, base: nat, prec: Option<nat>, w: nat, left: bool, zeros: bool) {
    if prec.Some? then
      if left then prec.value <= (if base == 16 then n else n + 1)
      else if base == 16 then prec.value <= 30 else prec.value <= n || prec.value == BUFFER_SIZE
    else if left || !zeros then w != n
    else if base == 16 then w < n || n + 2 <= w <= BUFFER_SIZE
    else w != n && w <= BUFFER_SIZE
  }

  lemma DigitsPrinted(p: Piece, args: seq<Arg>, g: Flags)
    requires IntegerPiece(p) && FlagsAgree(p, args, g) && Abs(Number(p, args)) < TWO64
    ensures |NtoaDigits(Abs(Number(p, args)), Radix(p.conv), g)|
         == if Precision(p, args).Some? && Number(p, args) == 0 then 0 else |Numeral(p, args)|
  {
    hide Proper, Number, Precision, LeftJustified, NtoaDigits, Digits;
    NtoaDigitsAre(Abs(Number(p, args)), Radix(p.conv), g);
  }

  /** Every integer directive of C11 prints what C11 asks for if and only if it fits. */
  lemma IntegerPrints(p: Piece, args: seq<Arg>)
    requires IntegerPiece(p)
    ensures Convert(SpecOf(p), args).0 == IntegerOutput(p, args) <==> IntegerFits(p, args)
  {
    hide Proper, SpecOf, C11Resolve, Convert, IntegerFlags;
    hide Number, Precision, Width, IntegerOutput, IntegerFits, FlagsAgree;
    var g := IntegerFlags(p.conv, C11Resolve(SpecOf(p), args).0);
    IntegerFlagsAgree(p, args);
    IntegerNumber(p, args);
    ResolvedAmounts(p, args);
    SpecPrecision(p);
    WrittenFlags(p);
    if '#' in p.flags {
      HashDirectiveMeetsC11(SpecOf(p), args);
      OutputHash(p, args, g);
      HashFitsAgree(p, args, g);
    } else {
      IntegerMeetsC11(SpecOf(p), args);
      OutputPlain(p, args, g);
      PlainFitsAgree(p, args, g);
    }
  }

  lemma PlainFitsAgree(p: Piece, args: seq<Arg>, g: Flags)
    requires IntegerPiece(p) && FlagsAgree(p, args, g) && !('#' in p.flags) && Abs(Number(p, args)) < TWO64
    ensures var v := Number(p, args);
      IntegerFits(p, args) <==>
      if Below0(p, args)
      then v != 0 && (g.left || !g.zeropad ||
                      Width(p, args) <= |SignText(v < 0, g)| + |Digits(Abs(v), Radix(p.conv), g.upper)|)
      else FieldFits(Abs(v), v < 0, Radix(p.conv), PrecisionOr0(p, args), Width(p, args), g)
  {
    hide Proper, Number, Width, Digits, NtoaDigits, PrecisionFits;
    DigitsPrinted(p, args, g);
    UnsignedIsNotNegative(p, args);
    assert SignText(Number(p, args) < 0, g) == Mark(p, Number(p, args));
    hide Precision, LeftJustified;
  }

  lemma HashFitsAgree(p: Piece, args: seq<Arg>, g: Flags)
    requires IntegerPiece(p) && FlagsAgree(p, args, g) && '#' in p.flags && Abs(Number(p, args)) < TWO64
    requires Number(p, args) >= 0
    ensures var v, base, w := Number(p, args), Radix(p.conv), Width(p, args);
      IntegerFits(p, args) <==>
      if Below0(p, args)
      then v != 0 && (g.left || !g.zeropad || w <= |Digits(v, base, g.upper)| + if base == 16 then 2 else 1)
      else if v > 0 then HashFits(|NtoaDigits(v, base, g)|, base, PrecisionOr0(p, args), w, g)
      else
        && FieldFits(0, false, base, PrecisionOr0(p, args), w, g)
        && !(base == 8 && g.precision && PrecisionOr0(p, args) == 0)
  {
    hide Proper, Number, Width, Digits, NtoaDigits, PrecisionFits;
    DigitsPrinted(p, args, g);
    HashMark(p, g, Number(p, args));
    hide Precision, LeftJustified;
  }

  // ----- The other conversions -------------------------------------------------------

  predicate TextFits(p: Piece, args: seq<Arg>)
    requires p.Dir?
  {
    var s, w := TextAt(args, Stars(p)), Width(p, args);
    if Below0(p, args) then |s| <= w && Blank(s)
    else Precision(p, args).Some? || |s| < TWO32 || w <= |s| % TWO32
  }

  lemma JustifiedText(p: Piece, args: seq<Arg>, s: string)
    requires p.Dir?
    ensures (Justified(p, args, "", s, false) ==
             if LeftJustified(p, args) then s + Rep(' ', Width(p, args) - |s|) else Rep(' ', Width(p, args) - |s|) + s)
  {
    assert "" + s == s;
  }

  /** "%s" prints what C11 asks for if and only if it fits. */
  lemma TextPrints(p: Piece, args: seq<Arg>)
    requires p.Dir? && Proper(p) && p.conv == 's'
    ensures Convert(SpecOf(p), args).0 == Output(p, args) <==> TextFits(p, args)
  {
    hide Proper, SpecOf, C11Resolve, Convert, Width, Precision;
    hide Justified, LeftJustified, Blank, TextArg, TextAt, AsResolved;
    var (f, width, prec, rest) := C11Resolve(SpecOf(p), args);
    SpecPrecision(p);
    ResolvedAmounts(p, args);
    WrittenFlags(p);
    ResolvedFlags(p, args);
    LeftOf(p, args);
    TextMeetsC11(SpecOf(p), args);
    var s, n := TextAt(args, Stars(p)), Precision(p, args);
    JustifiedText(p, args, if n.Some? && n.value < |s| then s[..n.value] else s);
  }

  lemma LeftOf(p: Piece, args: seq<Arg>)
    requires p.Dir? && Proper(p)
    ensures var f := C11Resolve(SpecOf(p), args).0;
      && f.left == LeftJustified(p, args) && f.precision == Precision(p, args).Some?
  {
    hide Proper, SpecOf, C11Resolve, Precision, IntAt;
    WrittenFlags(p);
    ResolvedFlags(p, args);
  }

  /** "%c" and "%%" always do. */
  lemma CharPrints(p: Piece, args: seq<Arg>)
    requires p.Dir? && Proper(p) && (p.conv == 'c' || p.conv == '%')
    ensures Convert(SpecOf(p), args).0 == Output(p, args)
  {
    hide Proper, SpecOf, Resolve, Width, Precision, Justified, LeftJustified, WordArg, WordAt, AsResolved, IntAt;
    SpecPrecision(p);
    if p.conv == 'c' {
      ResolvedAmounts(p, args);
      LeftOf(p, args);
      CodeLeft(p, args);
      JustifiedText(p, args, [(WordAt(args, Stars(p)) % 0x100) as char]);
    }
  }

  lemma CodeLeft(p: Piece, args: seq<Arg>)
    requires p.Dir? && Proper(p)
    ensures Resolve(SpecOf(p), args).0.left == C11Resolve(SpecOf(p), args).0.left
    ensures Resolve(SpecOf(p), args).1 == C11Resolve(SpecOf(p), args).1
    ensures Resolve(SpecOf(p), args).3 == C11Resolve(SpecOf(p), args).3
  {
    hide Proper, SpecOf, Resolve;
  }

  /** "%p", which C11 leaves to the implementation: sixteen capital hexadecimal digits. */
  lemma PointerPrints(w: u64)
    ensures var p := Dir("", Absent, Unset, "", 'p');
      Convert(SpecOf(p), [Word(w)]).0 == Rep('0', 16 - |Digits(w, 16, true)|) + Digits(w, 16, true)
  {
    var p := Dir("", Absent, Unset, "", 'p');
    hide Field, Digits;
    PointerFlags();
    var f := NO_FLAGS.(zeropad := true, upper := true);
    assert Convert(SpecOf(p), [Word(w)]).0 == Field(w, false, 16, 0, 16, f);
    PointerField(w, f);
  }

  lemma PointerFlags()
    ensures var p := Dir("", Absent, Unset, "", 'p');
      Proper(p) && SpecOf(p) == Spec(NO_FLAGS, Absent, Absent, 'p')
  {
  }

  lemma PointerField(w: u64, f: Flags)
    requires f == NO_FLAGS.(zeropad := true, upper := true)
    ensures Field(w, false, 16, 0, 16, f) == Rep('0', 16 - |Digits(w, 16, true)|) + Digits(w, 16, true)
  {
    hide Field, Digits, NtoaDigits;
    FieldMeetsC11(w, false, 16, 0, 16, f);
    NoZeros(Digits(w, 16, true));
    NothingBefore(Rep('0', 16 - |Digits(w, 16, true)|) + Digits(w, 16, true));
  }

  /** "%b", which C11 does not have: the binary numeral. */
  lemma BinaryPrints(v: u32)
    ensures var p := Dir("", Absent, Unset, "", 'b');
      Convert(SpecOf(p), [Word(v)]).0 == Digits(v, 2, false)
  {
    hide Digits, RevDigits, Field;
    BinarySpec();
    BinaryField(v);
    DivModUnique(v, TWO32, 0, v);
  }

  lemma BinarySpec()
    ensures SpecOf(Dir("", Absent, Unset, "", 'b')) == Spec(NO_FLAGS, Absent, Absent, 'b')
    ensures IntegerFlags('b', NO_FLAGS) == NO_FLAGS
  {
  }

  lemma BinaryField(v: u32)
    ensures Field(v, false, 2, 0, 0, NO_FLAGS) == Digits(v, 2, false)
  {
    hide Digits, RevDigits, Reverse, Power;
    BinaryRoom();
    RevDigitsAll(v, 2, false, BUFFER_SIZE);
    NothingBehind(RevDigits(v, 2, false, BUFFER_SIZE));
    NothingBefore(Digits(v, 2, false));
  }

  lemma BinaryRoom()
    ensures TWO32 <= Power(2, BUFFER_SIZE)
  {
    assert Power(2, 8) == 0x100;
    PowerAdd(2, 8, 8);
    PowerAdd(2, 16, 16);
  }

  lemma NothingBefore(s: string)
    ensures "" + s == s
  {
  }

  // ----- Whole formats ---------------------------------------------------------------

  /** How many arguments a directive takes. */
  function Takes(p: Spec): (n: nat) {
    (if p.width == Star then 1 else 0) + (if p.prec == Star then 1 else 0) + if TakesValue(p.conv) then 1 else 0
  }

  /** A directive takes its stars' arguments and its value, if it has one, and leaves the rest. */
  lemma ConvertTakes(p: Spec, args: seq<Arg>)
    requires |args| >= Takes(p)
    ensures Convert(p, args).1 == args[Takes(p)..]
  {
    hide IntegerText, StringText, Justify, Field, Signed;
    assert args[0..] == args;
    if |args| > 0 { RestIs(args, 1); }
    if |args| > 1 { RestIs(args, 2); }
    if |args| > 2 { RestIs(args, 3); }
  }

  lemma RestIs(args: seq<Arg>, i: nat)
    requires 0 < i <= |args|
    ensures Rest(args[i - 1..]) == args[i..]
  {
  }

  lemma PieceTakes(p: Piece)
    requires p.Dir? && Proper(p)
    ensures Takes(SpecOf(p)) == Uses(p)
  {
    hide Proper;
    SpecPrecision(p);
    hide SpecOf;
  }

  /** What a piece of a format prints, given the arguments from its own on. */
  function PieceText(p: Piece, args: seq<Arg>): (s: string)
    requires Proper(p)
  {
    if p.Lit? then [p.c] else Convert(SpecOf(p), args).0
  }

  function TotalUses(ps: seq<Piece>): (n: nat) {
    if ps == [] then 0 else TotalUses(ps[..|ps| - 1]) + Uses(ps[|ps| - 1])
  }

  /** Each piece in turn, with the arguments that the pieces before it leave. */
  function InTurn(ps: seq<Piece>, args: seq<Arg>): (s: string)
    requires |args| >= TotalUses(ps) && AllProper(ps)
  {
    if ps == [] then ""
    else
      var before := ps[..|ps| - 1];
      InTurn(before, args) + PieceText(ps[|ps| - 1], args[TotalUses(before)..])
  }

  lemma {:induction false} UsesFromFront(ps: seq<Piece>)
    requires ps != []
    ensures TotalUses(ps) == Uses(ps[0]) + TotalUses(ps[1..])
    decreases |ps|
  {
    hide Uses;
    var before := ps[..|ps| - 1];
    if |ps| == 1 {
      assert before == [] && ps[1..] == [];
    } else {
      UsesFromFront(before);
      assert before[1..] == ps[1..][..|ps| - 2] && ps[1..][|ps| - 2] == ps[|ps| - 1];
    }
  }

  lemma FrontPiece(ps: seq<Piece>, args: seq<Arg>)
    requires ps != [] && AllProper(ps) && |args| >= Uses(ps[0])
    ensures RenderPieces(ps, args) == PieceText(ps[0], args) + RenderPieces(ps[1..], args[Uses(ps[0])..])
  {
    hide Proper, SpecOf, Convert, Takes;
    if ps[0].Lit? {
      assert args[0..] == args;
    } else {
      PieceTakes(ps[0]);
      ConvertTakes(SpecOf(ps[0]), args);
    }
  }

  lemma {:induction false} LastPiece(ps: seq<Piece>, args: seq<Arg>)
    requires ps != [] && AllProper(ps) && |args| >= TotalUses(ps)
    ensures var before := ps[..|ps| - 1];
      RenderPieces(ps, args) == RenderPieces(before, args) + PieceText(ps[|ps| - 1], args[TotalUses(before)..])
    decreases |ps|
  {
    hide Proper, PieceText, Uses, RenderPieces;
    var before, rest := ps[..|ps| - 1], ps[1..];
    UsesFromFront(ps);
    FrontPiece(ps, args);
    if |ps| == 1 {
      assert before == [] && rest == [] && args[0..] == args;
      NoPieces(args);
      NoPieces(args[Uses(ps[0])..]);
      NothingBehind(PieceText(ps[0], args));
      NothingBefore(PieceText(ps[0], args));
    } else {
      var n := Uses(ps[0]);
      LastPiece(rest, args[n..]);
      UsesFromFront(before);
      FrontPiece(before, args);
      var m := TotalUses(before[1..]);
      assert before[1..] == rest[..|rest| - 1] && before[0] == ps[0] && rest[|rest| - 1] == ps[|ps| - 1];
      assert args[n..][m..] == args[n + m..];
      Associate(PieceText(ps[0], args), RenderPieces(before[1..], args[n..]), PieceText(ps[|ps| - 1], args[n + m..]));
    }
  }

  lemma NoPieces(args: seq<Arg>)
    ensures RenderPieces([], args) == ""
  {
  }

  lemma NothingBehind(s: string)
    ensures s + "" == s
  {
  }

  lemma Associate(a: string, b: string, c: string)
    ensures a + (b + c) == (a + b) + c
  {
  }

  /** In a format of pieces every directive is rendered with the arguments that those before it
      have left, one for each of their stars and values. */
  lemma {:induction false} RenderInTurn(ps: seq<Piece>, args: seq<Arg>)
    requires AllProper(ps) && |args| >= TotalUses(ps)
    ensures Render(ShowAll(ps), args) == RenderPieces(ps, args) == InTurn(ps, args)
    decreases |ps|
  {
    hide Proper, PieceText, Uses, RenderPieces, Render, ShowAll;
    RenderShow(ps, args);
    if ps == [] {
      NoPieces(args);
    } else {
      LastPiece(ps, args);
      RenderInTurn(ps[..|ps| - 1], args);
    }
  }

  /** A piece that the code prints as C11 asks. */
  predicate PieceFits(p: Piece, args: seq<Arg>) {
    p.Lit? || (if IntegerPiece(p) then IntegerFits(p, args) else if p.conv == 's' then TextFits(p, args)
               else p.conv == 'c' || p.conv == '%')
  }

  /** Every piece with the arguments it gets. */
  predicate FormatFits(ps: seq<Piece>, args: seq<Arg>)
    requires |args| >= TotalUses(ps)
  {
    ps == [] || (FormatFits(ps[..|ps| - 1], args) &&
                 PieceFits(ps[|ps| - 1], args[TotalUses(ps[..|ps| - 1])..]))
  }

  /** What C11 asks a format to print. */
  function FormatOutput(ps: seq<Piece>, args: seq<Arg>): (s: string)
    requires |args| >= TotalUses(ps)
  {
    if ps == [] then ""
    else
      var before, p := ps[..|ps| - 1], ps[|ps| - 1];
      FormatOutput(before, args) + if p.Lit? then [p.c] else Output(p, args[TotalUses(before)..])
  }

  lemma PiecePrints(p: Piece, args: seq<Arg>)
    requires Proper(p) && PieceFits(p, args)
    ensures PieceText(p, args) == if p.Lit? then [p.c] else Output(p, args)
  {
    hide Proper, IntegerFits, TextFits, IntegerOutput, Justified, Convert, SpecOf;
    if p.Dir? {
      if IntegerPiece(p) { IntegerPrints(p, args); }
      else if p.conv == 's' { TextPrints(p, args); }
      else { CharPrints(p, args); }
    }
  }

  /** A format all of whose directives fit prints, literal characters and directives in order,
      exactly what C11 asks for. */
  lemma {:induction false} FormatMeetsC11(ps: seq<Piece>, args: seq<Arg>)
    requires AllProper(ps) && |args| >= TotalUses(ps) && FormatFits(ps, args)
    ensures Render(ShowAll(ps), args) == FormatOutput(ps, args)
    decreases |ps|
  {
    hide Proper, PieceText, Uses, RenderPieces, Render, ShowAll, PieceFits, Output;
    RenderInTurn(ps, args);
    if ps != [] {
      var before := ps[..|ps| - 1];
      RenderInTurn(before, args);
      FormatMeetsC11(before, args);
      PiecePrints(ps[|ps| - 1], args[TotalUses(before)..]);
    }
  }
}
