/** Format strings: what a directive is, how it is scanned, and what it stands for. */
module Directives {
  import opened Words
  import opened Numerals
  import opened NumberField

  /** An argument of the variable list: a register-sized word, or a string. */
  datatype Arg = Word(w: u64) | Text(s: string)

  /** A width or precision: not written, written out, or taken from the arguments. */
  datatype Amount = Absent | Given(n: u32) | Star

  datatype Spec = Spec(flags: Flags, width: Amount, prec: Amount, conv: char)

  const NO_FLAGS := Flags(false, false, false, false, false, false, false, false, false, false, false)

  // ----- Scanning, on the rest of the format -----------------------------------------

  /** The character the format pointer is at. */
  function At(s: string): (r: char) { if s == "" then '\0' else s[0] }

  predicate IsFlag(c: char) { c == '0' || c == '-' || c == '+' || c == ' ' || c == '#' }

  function WithFlag(f: Flags, c: char): (r: Flags)
    requires IsFlag(c)
  {
    if c == '0' then f.(zeropad := true)
    else if c == '-' then f.(left := true)
    else if c == '+' then f.(plus := true)
    else if c == ' ' then f.(space := true)
    else f.(hash := true)
  }

  function ScanFlags(s: string, f: Flags): (r: (Flags, string))
    ensures |r.1| <= |s|
  {
    if s != "" && IsFlag(s[0]) then ScanFlags(s[1..], WithFlag(f, s[0])) else (f, s)
  }

  predicate IsDigit(c: char) { '0' <= c <= '9' }

  /** _atoi: 32-bit arithmetic wraps. */
  function ScanNumber(s: string, acc: u32): (r: (u32, string))
    ensures |r.1| <= |s|
  {
    if s != "" && IsDigit(s[0]) then ScanNumber(s[1..], (acc * 10 + (s[0] as int - '0' as int)) % TWO32) else (acc, s)
  }

  function ScanAmount(s: string): (r: (Amount, string))
    ensures |r.1| <= |s|
  {
    if IsDigit(At(s)) then var (n, rest) := ScanNumber(s, 0); (Given(n), rest)
    else if At(s) == '*' then (Star, s[1..])
    else (Absent, s)
  }

  /** After a '.', no number means 0. */
  function ScanPrecision(s: string): (r: (Amount, string))
    ensures |r.1| <= |s|
  {
    if At(s) != '.' then (Absent, s)
    else
      var (a, rest) := ScanAmount(s[1..]);
      (if a == Absent then Given(0) else a, rest)
  }

  datatype Length = Plain | Char | Short | Long | LongLong

  /** The length modifier in the characters c0 c1, and how many of them it takes. */
  function LengthChars(c0: char, c1: char): (r: (Length, nat)) {
    if c0 == 'l' then (if c1 == 'l' then (LongLong, 2) else (Long, 1))
    else if c0 == 'h' then (if c1 == 'h' then (Char, 2) else (Short, 1))
    else if c0 == 't' || c0 == 'j' || c0 == 'z' then (Long, 1)
    else (Plain, 0)
  }

  function LengthOf(s: string): (r: (Length, nat))
    ensures r.1 <= |s|
  {
    LengthChars(At(s), if |s| > 1 then s[1] else '\0')
  }

  /** On x86-64 long, long long, intmax_t, size_t and ptrdiff_t all have 64 bits. */
  function WithLength(l: Length, f: Flags): (r: Flags) {
    f.(h := f.h || l.Char? || l.Short?, hh := f.hh || l.Char?,
       l := f.l || l.Long? || l.LongLong?, ll := f.ll || l.LongLong?)
  }

  function ScanLength(s: string, f: Flags): (r: (Flags, string))
    ensures |r.1| <= |s|
  {
    (WithLength(LengthOf(s).0, f), s[LengthOf(s).1..])
  }

  /** The directive that follows a '%', and what follows the directive. */
  function Parse(s: string): (r: (Spec, string))
    ensures |r.1| <= |s|
  {
    var (f1, s1) := ScanFlags(s, NO_FLAGS);
    var (width, s2) := ScanAmount(s1);
    var (prec, s3) := ScanPrecision(s2);
    var (f2, s4) := ScanLength(s3, f1.(precision := prec != Absent));
    (Spec(f2, width, prec, At(s4)), if s4 == "" then s4 else s4[1..])
  }

  /** No directive is cut short by the end of the format. */
  predicate Closed(s: string)
    decreases |s|
  {
    s == "" || (if s[0] != '%' then Closed(s[1..]) else Parse(s[1..]).0.conv != '\0' && Closed(Parse(s[1..]).1))
  }

  // ----- Arguments -------------------------------------------------------------------

  /** va_arg: a missing or mistyped argument, undefined in C, reads as 0 or "". */
  function WordArg(args: seq<Arg>): (r: u64) { if args != [] && args[0].Word? then args[0].w else 0 }
  function TextArg(args: seq<Arg>): (r: string) { if args != [] && args[0].Text? then args[0].s else "" }
  function Rest(args: seq<Arg>): (r: seq<Arg>) { if args == [] then [] else args[1..] }

  /** The two's-complement reading of the low bits of w, for a modulus of 2^bits. */
  function Signed(w: nat, modulus: nat): (r: int)
    requires modulus >= 2
  {
    if w % modulus < modulus / 2 then w % modulus else w % modulus - modulus
  }

  lemma SignedBound(w: nat, modulus: nat)
    requires modulus >= 2
    ensures 0 - modulus < Signed(w, modulus) < modulus
  {
  }

  /** Flags, width, precision and remaining arguments once the stars are filled in. */
  function Resolve(p: Spec, args: seq<Arg>): (r: (Flags, u32, u32, seq<Arg>)) {
    var w := Signed(WordArg(args), TWO32);
    var f := if p.width == Star && w < 0 then p.flags.(left := true) else p.flags;
    var width := if p.width == Star then (if w < 0 then -w else w) else if p.width == Absent then 0 else p.width.n;
    var args1 := if p.width == Star then Rest(args) else args;
    var v := Signed(WordArg(args1), TWO32);
    var prec := if p.prec == Star then (if v > 0 then v else 0) else if p.prec == Absent then 0 else p.prec.n;
    (f, width, prec, if p.prec == Star then Rest(args1) else args1)
  }

  /** The bits an unsigned conversion looks at. */
  function Modulus(f: Flags): (m: nat)
    ensures m >= 2
  {
    if f.ll || f.l then TWO64 else if f.hh then 0x100 else if f.h then 0x1_0000 else TWO32
  }

  predicate IsInteger(c: char) { c == 'd' || c == 'i' || c == 'u' || c == 'x' || c == 'X' || c == 'o' || c == 'b' }

  function Base(c: char): (b: nat)
    ensures 2 <= b <= 16
  {
    if c == 'x' || c == 'X' then 16 else if c == 'o' then 8 else if c == 'b' then 2 else 10
  }

  /** The flags that matter to an integer conversion: no '#' in base 10, no sign flags
      unless signed, no zero padding beside a precision. */
  function IntegerFlags(c: char, f: Flags): (r: Flags) {
    var signed := c == 'd' || c == 'i';
    f.(hash := f.hash && Base(c) != 10, upper := f.upper || c == 'X', plus := f.plus && signed,
       space := f.space && signed, zeropad := f.zeropad && !f.precision)
  }

  function Abs(v: int): (r: nat) { if v < 0 then -v else v }

  function IntegerText(c: char, w: u64, f: Flags, width: u32, prec: u32): (r: string) {
    var v := if c == 'd' || c == 'i' then Signed(w, Modulus(f)) else w % Modulus(f);
    Field(Abs(v), v < 0, Base(c), prec, width, IntegerFlags(c, f))
  }

  /** Text justified in a field of the given width. */
  function Justify(s: string, len: nat, width: nat, f: Flags): (r: string) {
    if f.left then s + Rep(' ', width - len) else Rep(' ', width - len) + s
  }

  /** _strnlen_s. */
  function TextLength(s: string, precision: nat): (r: u32) {
    (if precision > 0 && |s| > precision then precision else |s|) % TWO32
  }

  function StringText(s: string, f: Flags, width: u32, prec: u32): (r: string) {
    var l := TextLength(s, prec);
    if f.precision then Justify(if |s| > prec then s[..prec] else s, if l < prec then l else prec, width, f)
    else Justify(s, l, width, f)
  }

  /** What a directive stands for, and the arguments it leaves. */
  function Convert(p: Spec, args: seq<Arg>): (r: (string, seq<Arg>)) {
    var (f, width, prec, args1) := Resolve(p, args);
    if IsInteger(p.conv) then (IntegerText(p.conv, WordArg(args1), f, width, prec), Rest(args1))
    else if p.conv == 'c' then (Justify([(WordArg(args1) % 0x100) as char], 1, width, f), Rest(args1))
    else if p.conv == 's' then (StringText(TextArg(args1), f, width, prec), Rest(args1))
    else if p.conv == 'p' then
      (Field(WordArg(args1), false, 16, prec, 16, f.(zeropad := true, upper := true)), Rest(args1))
    else ([p.conv], args1)
  }

  /** The full output: literal characters and directives, in order. */
  function Render(s: string, args: seq<Arg>): (r: string)
    decreases |s|
  {
    if s == "" then ""
    else if s[0] != '%' then [s[0]] + Render(s[1..], args)
    else
      var (p, rest) := Parse(s[1..]);
      var (text, args1) := Convert(p, args);
      text + Render(rest, args1)
  }

  lemma RenderNothing(args: seq<Arg>)
    ensures Render("", args) == ""
  {
  }

  lemma RenderLiteral(s: string, args: seq<Arg>)
    requires s != "" && s[0] != '%' && Closed(s)
    ensures Render(s, args) == [s[0]] + Render(s[1..], args) && Closed(s[1..])
  {
  }

  lemma RenderDirective(s: string, args: seq<Arg>)
    requires s != "" && s[0] == '%' && Closed(s)
    ensures var (p, rest) := Parse(s[1..]);
      && p.conv != '\0' && Closed(rest)
      && Render(s, args) == Convert(p, args).0 + Render(rest, Convert(p, args).1)
  {
  }

  // ----- Formats written from their parts --------------------------------------------

  datatype Piece = Lit(c: char) | Dir(flags: string, width: Amount, prec: Precision, length: string, conv: char)
  datatype Precision = Unset | Dot(a: Amount)

  function ShowAmount(a: Amount): (r: string) {
    match a case Absent => "" case Given(n) => Digits(n, 10, false) case Star => "*"
  }

  function ShowPrecision(p: Precision): (r: string) {
    match p case Unset => "" case Dot(a) => "." + ShowAmount(a)
  }

  function Show(p: Piece): (r: string) {
    match p
    case Lit(c) => [c]
    case Dir(flags, width, prec, length, conv) =>
      "%" + (flags + (ShowAmount(width) + (ShowPrecision(prec) + (length + [conv]))))
  }

  predicate AllFlags(flags: string) { forall k :: 0 <= k < |flags| ==> IsFlag(flags[k]) }

  /** The pieces C11 describes: a literal is no '%'; a width does not start with 0. */
  predicate Proper(p: Piece) {
    match p
    case Lit(c) => c != '%'
    case Dir(flags, width, prec, length, conv) =>
      && AllFlags(flags)
      && width != Given(0)
      && length in ["", "h", "hh", "l", "ll", "t", "j", "z"]
      && (IsInteger(conv) || conv in "csp%")
  }

  function FlagsOf(flags: string, f: Flags): (r: Flags)
    requires AllFlags(flags)
  {
    if flags == "" then f else FlagsOf(flags[1..], WithFlag(f, flags[0]))
  }

  lemma InHeadOrTail(s: string, c: char)
    requires s != ""
    ensures c in s <==> c == s[0] || c in s[1..]
  {
    assert s == [s[0]] + s[1..];
  }

  /** Each flag is set by its own character, wherever among the flags that stands, ... */
  lemma {:induction false} LeftSet(flags: string, f: Flags)
    requires AllFlags(flags)
    ensures FlagsOf(flags, f).left <==> f.left || '-' in flags
    decreases |flags|
  {
    hide WithFlag, IsFlag;
    if flags != "" {
      InHeadOrTail(flags, '-');
      OneFlag(f, flags[0]);
      LeftSet(flags[1..], WithFlag(f, flags[0]));
    }
  }

  lemma {:induction false} PlusSet(flags: string, f: Flags)
    requires AllFlags(flags)
    ensures FlagsOf(flags, f).plus <==> f.plus || '+' in flags
    decreases |flags|
  {
    hide WithFlag, IsFlag;
    if flags != "" {
      InHeadOrTail(flags, '+');
      OneFlag(f, flags[0]);
      PlusSet(flags[1..], WithFlag(f, flags[0]));
    }
  }

  lemma {:induction false} SpaceSet(flags: string, f: Flags)
    requires AllFlags(flags)
    ensures FlagsOf(flags, f).space <==> f.space || ' ' in flags
    decreases |flags|
  {
    hide WithFlag, IsFlag;
    if flags != "" {
      InHeadOrTail(flags, ' ');
      OneFlag(f, flags[0]);
      SpaceSet(flags[1..], WithFlag(f, flags[0]));
    }
  }

  lemma {:induction false} HashSet(flags: string, f: Flags)
    requires AllFlags(flags)
    ensures FlagsOf(flags, f).hash <==> f.hash || '#' in flags
    decreases |flags|
  {
    hide WithFlag, IsFlag;
    if flags != "" {
      InHeadOrTail(flags, '#');
      OneFlag(f, flags[0]);
      HashSet(flags[1..], WithFlag(f, flags[0]));
    }
  }

  lemma {:induction false} ZeroSet(flags: string, f: Flags)
    requires AllFlags(flags)
    ensures FlagsOf(flags, f).zeropad <==> f.zeropad || '0' in flags
    decreases |flags|
  {
    hide WithFlag, IsFlag;
    if flags != "" {
      InHeadOrTail(flags, '0');
      OneFlag(f, flags[0]);
      ZeroSet(flags[1..], WithFlag(f, flags[0]));
    }
  }

  /** ... and no other is. */
  lemma {:induction false} OthersUnset(flags: string, f: Flags)
    requires AllFlags(flags)
    ensures SameOthers(f, FlagsOf(flags, f))
    decreases |flags|
  {
    hide WithFlag, IsFlag;
    if flags != "" {
      OneFlag(f, flags[0]);
      OthersUnset(flags[1..], WithFlag(f, flags[0]));
    }
  }

  predicate SameOthers(f: Flags, g: Flags) {
    g.hh == f.hh && g.h == f.h && g.l == f.l && g.ll == f.ll && g.upper == f.upper && g.precision == f.precision
  }

  /** What each flag character switches on. */
  function Switch(f: Flags, c: char): (g: Flags) {
    f.(left := f.left || c == '-', plus := f.plus || c == '+', space := f.space || c == ' ', hash := f.hash || c == '#',
       zeropad := f.zeropad || c == '0')
  }

  lemma OneFlag(f: Flags, c: char)
    requires IsFlag(c)
    ensures WithFlag(f, c) == Switch(f, c)
  {
  }

  /** What the piece means. */
  function SpecOf(p: Piece): (r: Spec)
    requires p.Dir? && Proper(p)
  {
    var prec := match p.prec case Unset => Absent case Dot(a) => if a == Absent then Given(0) else a;
    var f := FlagsOf(p.flags, NO_FLAGS).(precision := p.prec != Unset);
    Spec(WithLength(LengthOf(p.length).0, f), p.width, prec, p.conv)
  }

  function ShowAll(ps: seq<Piece>): (r: string) {
    if ps == [] then "" else Show(ps[0]) + ShowAll(ps[1..])
  }

  predicate AllProper(ps: seq<Piece>) { forall k :: 0 <= k < |ps| ==> Proper(ps[k]) }

  function RenderPieces(ps: seq<Piece>, args: seq<Arg>): (r: string)
    requires AllProper(ps)
  {
    if ps == [] then ""
    else if ps[0].Lit? then [ps[0].c] + RenderPieces(ps[1..], args)
    else
      var (text, args1) := Convert(SpecOf(ps[0]), args);
      text + RenderPieces(ps[1..], args1)
  }

  lemma {:induction false} ScanShownFlags(flags: string, s: string, f: Flags)
    requires AllFlags(flags) && !IsFlag(At(s))
    ensures ScanFlags(flags + s, f) == (FlagsOf(flags, f), s)
  {
    if flags == "" {
      assert flags + s == s;
    } else {
      assert (flags + s)[1..] == flags[1..] + s;
      ScanShownFlags(flags[1..], s, WithFlag(f, flags[0]));
    }
  }

  /** What _atoi makes of digits read after acc. */
  function Atoi(t: string, acc: u32): (r: u32)
    requires forall k :: 0 <= k < |t| ==> IsDigit(t[k])
  {
    if t == "" then acc else (Atoi(t[..|t| - 1], acc) * 10 + (t[|t| - 1] as int - '0' as int)) % TWO32
  }

  lemma {:induction false} ScanDigits(t: string, s: string, acc: u32)
    requires forall k :: 0 <= k < |t| ==> IsDigit(t[k])
    ensures ScanNumber(t + s, acc) == ScanNumber(s, Atoi(t, acc))
    decreases |t|
  {
    if t == "" {
      assert t + s == s;
    } else {
      var t', c := t[..|t| - 1], t[|t| - 1];
      ScanDigits(t', [c] + s, acc);
      assert t + s == t' + ([c] + s) && ([c] + s)[1..] == s;
    }
  }

  /** A number written in decimal scans as itself; it starts with no 0 unless it is 0. */
  lemma {:induction false} DecimalDigits(n: nat)
    ensures forall k :: 0 <= k < |Digits(n, 10, false)| ==> IsDigit(Digits(n, 10, false)[k])
    ensures n < TWO32 ==> Atoi(Digits(n, 10, false), 0) == n
    ensures n > 0 ==> Digits(n, 10, false)[0] != '0'
  {
    if n >= 10 {
      DecimalDigits(n / 10);
      assert Digits(n, 10, false)[..|Digits(n, 10, false)| - 1] == Digits(n / 10, 10, false);
    } else {
      assert Digits(n, 10, false) == [DigitChar(n, false)];
      assert Digits(n, 10, false)[..0] == "";
    }
  }

  lemma ScanShownAmount(a: Amount, s: string)
    requires !IsDigit(At(s)) && (a == Absent ==> At(s) != '*')
    ensures ScanAmount(ShowAmount(a) + s) == (a, s)
  {
    match a
    case Absent => assert "" + s == s;
    case Given(n) =>
      DecimalDigits(n);
      ScanDigits(Digits(n, 10, false), s, 0);
    case Star => assert ("*" + s)[1..] == s;
  }

  lemma ScanShownPrecision(p: Precision, s: string)
    requires !IsDigit(At(s)) && At(s) != '*' && At(s) != '.'
    ensures ScanPrecision(ShowPrecision(p) + s)
         == (match p case Unset => Absent case Dot(a) => if a == Absent then Given(0) else a, s)
  {
    match p
    case Unset => assert "" + s == s;
    case Dot(a) =>
      assert ("." + ShowAmount(a) + s)[1..] == ShowAmount(a) + s;
      ScanShownAmount(a, s);
  }

  lemma ScanShownLength(length: string, c: char, s: string, f: Flags)
    requires length in ["", "h", "hh", "l", "ll", "t", "j", "z"] && (IsInteger(c) || c in "csp%")
    ensures ScanLength(length + ([c] + s), f) == (WithLength(LengthOf(length).0, f), [c] + s)
  {
    var t := length + ([c] + s);
    assert forall k :: 0 <= k < |length| ==> t[k] == length[k];
    assert t[|length|] == c && t[|length|..] == [c] + s;
    assert LengthOf(t) == (LengthOf(length).0, |length|);
  }

  lemma StartOf(a: string, b: string)
    ensures At(a + b) == if a == "" then At(b) else a[0]
  {
  }

  /** What no scanner but the last takes. */
  predicate Stops(c: char) { !IsFlag(c) && !IsDigit(c) && c != '*' }

  lemma PiecesStop(p: Piece, s: string)
    requires p.Dir? && Proper(p)
    ensures var l := p.length + ([p.conv] + s);
      && Stops(At(l)) && At(l) != '.' && Stops(At(ShowPrecision(p.prec) + l))
      && !IsFlag(At(ShowAmount(p.width) + (ShowPrecision(p.prec) + l)))
  {
    var l := p.length + ([p.conv] + s);
    StartOf(p.length, [p.conv] + s);
    StartOf(ShowPrecision(p.prec), l);
    StartOf(ShowAmount(p.width), ShowPrecision(p.prec) + l);
    hide Digits;
    if p.width.Given? { DecimalDigits(p.width.n); }
  }

  /** A written directive parses to what it means, and the rest of the format is untouched. */
  lemma ParseShow(p: Piece, s: string)
    requires p.Dir? && Proper(p)
    ensures Parse((Show(p) + s)[1..]) == (SpecOf(p), s)
  {
    hide ScanFlags, ScanAmount, ScanPrecision, ScanLength, FlagsOf, ShowAmount, ShowPrecision, WithLength, LengthOf;
    var c := [p.conv] + s;
    var l := p.length + c;
    var pr := ShowPrecision(p.prec) + l;
    var w := ShowAmount(p.width) + pr;
    assert (Show(p) + s)[1..] == p.flags + w;
    PiecesStop(p, s);
    ScanShownFlags(p.flags, w, NO_FLAGS);
    ScanShownAmount(p.width, pr);
    ScanShownPrecision(p.prec, l);
    ScanShownLength(p.length, p.conv, s, FlagsOf(p.flags, NO_FLAGS).(precision := p.prec != Unset));
    assert c[1..] == s;
  }

  /** The output of a format is the renderings of its pieces, one after the other. */
  lemma {:induction false} RenderShow(ps: seq<Piece>, args: seq<Arg>)
    requires AllProper(ps)
    ensures Closed(ShowAll(ps)) && Render(ShowAll(ps), args) == RenderPieces(ps, args)
  {
    if ps != [] {
      var s := ShowAll(ps[1..]);
      if ps[0].Lit? {
        RenderShow(ps[1..], args);
        assert (Show(ps[0]) + s)[1..] == s;
      } else {
        RenderShow(ps[1..], Convert(SpecOf(ps[0]), args).1);
        ParseShow(ps[0], s);
      }
    }
  }

  /** What C11 asks of "%s": at most prec characters of the string, justified. */
  function C11Text(s: string, f: Flags, width: nat, prec: nat): (r: string) {
    var t := if f.precision && prec < |s| then s[..prec] else s;
    if f.left then t + Rep(' ', width - |t|) else Rep(' ', width - |t|) + t
  }

  /** To C11 a negative precision argument is as if none were given. */
  predicate PrecisionBelow0(p: Spec, args: seq<Arg>) {
    p.prec == Star && Signed(WordArg(if p.width == Star then Rest(args) else args), TWO32) < 0
  }

  /** Flags, width, precision and remaining arguments as C11 has them. */
  function C11Resolve(p: Spec, args: seq<Arg>): (r: (Flags, u32, u32, seq<Arg>)) {
    var (f, width, prec, rest) := Resolve(p, args);
    if PrecisionBelow0(p, args) then (f.(precision := false), width, 0, rest) else (f, width, prec, rest)
  }

  lemma ResolveBelow0(p: Spec, args: seq<Arg>)
    requires PrecisionBelow0(p, args) && p.flags.precision == (p.prec != Absent)
    ensures Resolve(p, args).2 == 0 && Resolve(p, args).0.precision
    ensures var f := C11Resolve(p, args).0;
      f == Resolve(p, args).0.(precision := false) && f.hash == p.flags.hash
  {
    hide Signed, WordArg, Rest;
  }

  lemma FlagsBelow0(c: char, f: Flags)
    requires f.precision
    ensures var g := IntegerFlags(c, f.(precision := false));
      IntegerFlags(c, f) == NoPrecision(g) && !g.precision && (g.hash ==> f.hash)
  {
  }

  lemma SameResolve(p: Spec, args: seq<Arg>)
    requires p.flags.precision == (p.prec != Absent)
    ensures Resolve(p, args).0.precision == (p.prec != Absent)
    ensures p.prec == Absent ==> Resolve(p, args).2 == 0
  {
  }

  /** The code counts characters in 32 bits. */
  lemma StringMeetsC11(s: string, f: Flags, width: u32, prec: u32)
    requires !f.precision ==> prec == 0
    ensures StringText(s, f, width, prec) == C11Text(s, f, width, prec)
            <==> f.precision || |s| < TWO32 || width <= |s| % TWO32
  {
  }

  predicate Blank(s: string) { forall k :: 0 <= k < |s| ==> s[k] == ' ' }

  lemma NoStringMeetsC11(s: string, f: Flags, g: Flags, width: u32)
    requires f.precision && !g.precision && f.left == g.left
    ensures StringText(s, f, width, 0) == C11Text(s, g, width, 0) <==> |s| <= width && Blank(s)
  {
    var spaces, std := Rep(' ', width), C11Text(s, g, width, 0);
    assert StringText(s, f, width, 0) == spaces;
    if |s| <= width && !Blank(s) {
      var k :| 0 <= k < |s| && s[k] != ' ';
      assert std[if g.left then k else width - |s| + k] == s[k];
    }
  }

  /** "%s" prints what C11 asks for except when it pads a string of 4 GiB or more as a short
      one, or when a negative precision has it print nothing of a string that shows. */
  lemma TextMeetsC11(p: Spec, args: seq<Arg>)
    requires p.conv == 's' && p.flags.precision == (p.prec != Absent)
    ensures var (f, width, prec, args1) := C11Resolve(p, args);
      var s := TextArg(args1);
      (Convert(p, args).0 == C11Text(s, f, width, prec)) <==>
      if PrecisionBelow0(p, args) then |s| <= width && Blank(s)
      else f.precision || |s| < TWO32 || width <= |s| % TWO32
  {
    hide StringText, C11Text, Blank;
    var (f, width, prec, args1) := C11Resolve(p, args);
    SameResolve(p, args);
    if PrecisionBelow0(p, args) {
      NoStringMeetsC11(TextArg(args1), Resolve(p, args).0, f, width);
    } else {
      StringMeetsC11(TextArg(args1), f, width, prec);
    }
  }

  lemma DirectiveFields(p: Spec, args: seq<Arg>)
    requires IsInteger(p.conv) && p.conv != 'b' && !p.flags.hash && p.flags.precision == (p.prec != Absent)
    ensures var (f, width, prec, args1) := Resolve(p, args);
      var w := WordArg(args1);
      var v := if p.conv == 'd' || p.conv == 'i' then Signed(w, Modulus(f)) else w % Modulus(f);
      && Abs(v) < TWO64 && IntegerCall(Base(p.conv), prec, IntegerFlags(p.conv, f))
      && Convert(p, args).0 == Field(Abs(v), v < 0, Base(p.conv), prec, width, IntegerFlags(p.conv, f))
  {
    hide Field, WordArg, Signed;
    SignedBound(WordArg(Resolve(p, args).3), Modulus(Resolve(p, args).0));
  }

  /** The integer directives without '#' (and "%b", which C11 does not know) print what C11
      asks for exactly when the directive fits; with a negative precision argument, exactly
      when the value is not 0 and the '0' flag has nothing to do. */
  lemma IntegerMeetsC11(p: Spec, args: seq<Arg>)
    requires IsInteger(p.conv) && p.conv != 'b' && !p.flags.hash && p.flags.precision == (p.prec != Absent)
    ensures var (f, width, prec, args1) := C11Resolve(p, args);
      var w := WordArg(args1);
      var v := if p.conv == 'd' || p.conv == 'i' then Signed(w, Modulus(f)) else w % Modulus(f);
      var g := IntegerFlags(p.conv, f);
      (Convert(p, args).0 == C11Field(Abs(v), v < 0, Base(p.conv), prec, width, g)) <==>
      if PrecisionBelow0(p, args)
      then v != 0 && (g.left || !g.zeropad ||
                      width <= |SignText(v < 0, g)| + |Digits(Abs(v), Base(p.conv), g.upper)|)
      else FieldFits(Abs(v), v < 0, Base(p.conv), prec, width, g)
  {
    hide Resolve, IntegerFlags, IntegerCall, Field, C11Field, FieldFits, Signed, Base, SignText, Digits;
    var (f, width, prec, args1) := C11Resolve(p, args);
    var w := WordArg(args1);
    var v := if p.conv == 'd' || p.conv == 'i' then Signed(w, Modulus(f)) else w % Modulus(f);
    var g := IntegerFlags(p.conv, f);
    DirectiveFields(p, args);
    if PrecisionBelow0(p, args) {
      ResolveBelow0(p, args);
      FlagsBelow0(p.conv, Resolve(p, args).0);
      PlainBase(p);
      NegativePrecision(Abs(v), v < 0, Base(p.conv), width, g);
    } else {
      FieldMeetsC11(Abs(v), v < 0, Base(p.conv), prec, width, g);
    }
  }

  lemma PlainBase(p: Spec)
    requires IsInteger(p.conv) && p.conv != 'b'
    ensures 8 <= Base(p.conv) <= 16
  {
  }

  /** The octal and hexadecimal directives with '#' print what C11 asks for exactly when the
      directive fits; with a negative precision argument, as without '#'. */
  lemma HashDirectiveMeetsC11(p: Spec, args: seq<Arg>)
    requires (p.conv == 'o' || p.conv == 'x' || p.conv == 'X') && p.flags.hash
    requires p.flags.precision == (p.prec != Absent)
    ensures var (f, width, prec, args1) := C11Resolve(p, args);
      var v, base, g := WordArg(args1) % Modulus(f), Base(p.conv), IntegerFlags(p.conv, f);
      (Convert(p, args).0 == C11HashField(v, base, prec, width, g)) <==>
      if PrecisionBelow0(p, args)
      then v != 0 && (g.left || !g.zeropad || width <= |Digits(v, base, g.upper)| + if base == 16 then 2 else 1)
      else if v > 0 then HashFits(|NtoaDigits(v, base, g)|, base, prec, width, g)
      else FieldFits(0, false, base, prec, width, g) && !(base == 8 && g.precision && prec == 0)
  {
    hide Resolve, IntegerFlags, HashCall, Field, C11HashField, HashFits, FieldFits, Base, Digits;
    var (f, width, prec, args1) := C11Resolve(p, args);
    var v, base, g := WordArg(args1) % Modulus(f), Base(p.conv), IntegerFlags(p.conv, f);
    HashDirectiveFields(p, args);
    if PrecisionBelow0(p, args) {
      ResolveBelow0(p, args);
      FlagsBelow0(p.conv, Resolve(p, args).0);
      HashCallBelow0(base, g);
      NegativeHash(v, base, width, g);
    } else if v > 0 {
      HashMeetsC11(v, base, prec, width, g);
    } else {
      HashOfZero(base, prec, width, g);
    }
  }

  lemma HashCallBelow0(base: nat, f: Flags)
    requires HashCall(base, 0, NoPrecision(f)) && !f.precision
    ensures HashCall(base, 0, f)
  {
  }

  lemma HashDirectiveFields(p: Spec, args: seq<Arg>)
    requires (p.conv == 'o' || p.conv == 'x' || p.conv == 'X') && p.flags.hash
    requires p.flags.precision == (p.prec != Absent)
    ensures var (f, width, prec, args1) := Resolve(p, args);
      var v, base, g := WordArg(args1) % Modulus(f), Base(p.conv), IntegerFlags(p.conv, f);
      && HashCall(base, prec, g) && Convert(p, args).0 == Field(v, false, base, prec, width, g)
  {
    hide Field, WordArg, Signed;
  }

  /** Three directives with the precision argument -1. */
  lemma BelowZeroInputs()
    ensures var p := Spec(NO_FLAGS.(precision := true), Absent, Star, 'd');
      Convert(p, [Word(0xFFFF_FFFF), Word(0)]).0 == "" && C11Field(0, false, 10, 0, 0, NO_FLAGS) == "0"
    ensures var p := Spec(NO_FLAGS.(zeropad := true, precision := true), Given(5), Star, 'd');
      && Convert(p, [Word(0xFFFF_FFFF), Word(7)]).0 == "    7"
      && C11Field(7, false, 10, 0, 5, NO_FLAGS.(zeropad := true)) == "00007"
    ensures var p := Spec(NO_FLAGS.(precision := true), Absent, Star, 's');
      Convert(p, [Word(0xFFFF_FFFF), Text("abc")]).0 == "" && C11Text("abc", NO_FLAGS, 0, 0) == "abc"
  {
    ZeroBelow0();
    SevenBelow0();
    TextBelow0();
  }

  lemma ZeroBelow0()
    ensures var p := Spec(NO_FLAGS.(precision := true), Absent, Star, 'd');
      Convert(p, [Word(0xFFFF_FFFF), Word(0)]).0 == "" && C11Field(0, false, 10, 0, 0, NO_FLAGS) == "0"
  {
    var args := [Word(0xFFFF_FFFF), Word(0)];
    assert args[1..] == [Word(0)];
    assert Digits(0, 10, false) == "0";
  }

  lemma SevenBelow0()
    ensures var p := Spec(NO_FLAGS.(zeropad := true, precision := true), Given(5), Star, 'd');
      && Convert(p, [Word(0xFFFF_FFFF), Word(7)]).0 == "    7"
      && C11Field(7, false, 10, 0, 5, NO_FLAGS.(zeropad := true)) == "00007"
  {
    hide Convert, Field, C11Field;
    SevenConverted();
    SevenField();
    SevenWanted();
  }

  lemma SevenConverted()
    ensures var p := Spec(NO_FLAGS.(zeropad := true, precision := true), Given(5), Star, 'd');
      Convert(p, [Word(0xFFFF_FFFF), Word(7)]).0 == Field(7, false, 10, 0, 5, NO_FLAGS.(precision := true))
  {
    hide Field;
    var args := [Word(0xFFFF_FFFF), Word(7)];
    assert args[1..] == [Word(7)];
  }

  lemma SevenField()
    ensures Field(7, false, 10, 0, 5, NO_FLAGS.(precision := true)) == "    7"
  {
    hide Field, Digits;
    var f := NO_FLAGS.(precision := true);
    FieldMeetsC11(7, false, 10, 0, 5, f);
    SevenDigits();
    assert Rep('0', 0 - 1) + "7" == "7" && "" + "7" == "7" && Rep(' ', 4) == "    ";
  }

  lemma SevenWanted()
    ensures C11Field(7, false, 10, 0, 5, NO_FLAGS.(zeropad := true)) == "00007"
  {
    hide Digits;
    SevenDigits();
    assert Rep('0', 0 - 1) + "7" == "7" && Rep('0', 4) == "0000";
  }

  lemma SevenDigits()
    ensures Digits(7, 10, false) == "7"
  {
  }

  lemma TextBelow0()
    ensures var p := Spec(NO_FLAGS.(precision := true), Absent, Star, 's');
      Convert(p, [Word(0xFFFF_FFFF), Text("abc")]).0 == "" && C11Text("abc", NO_FLAGS, 0, 0) == "abc"
  {
    var args := [Word(0xFFFF_FFFF), Text("abc")];
    assert args[1..] == [Text("abc")];
  }
}
