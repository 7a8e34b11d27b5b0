/** One integer field of printf: what _ntoa_long and _ntoa_format of printk.c produce, what
    section 7.21.6.1 of ISO C11 asks for, and exactly when the two agree. */
module NumberField {
  import opened Words
  import opened Numerals

  /** The FLAGS_ bits. */
  datatype Flags = Flags(zeropad: bool, left: bool, plus: bool, space: bool, hash: bool, upper: bool,
                         hh: bool, h: bool, l: bool, ll: bool, precision: bool)

  // ----- The code's field, built backwards in a 32-byte buffer ------------------------

  function NtoaDigits(v: u64, base: nat, f: Flags): (r: string)
    requires 2 <= base <= 16
    ensures |r| <= BUFFER_SIZE
  {
    if f.precision && v == 0 then "" else RevDigits(v, base, f.upper, BUFFER_SIZE)
  }

  /** Zeros appended up to n characters, as far as the buffer goes. */
  function PadZeros(r: string, n: nat): (s: string) {
    r + Rep('0', (if n < BUFFER_SIZE then n else BUFFER_SIZE) - |r|)
  }

  /** Zero padding leaves room for the sign. */
  function PadWidth(neg: bool, width: nat, f: Flags): (r: nat) {
    if !f.left && width > 0 && f.zeropad && (neg || f.plus || f.space) then width - 1 else width
  }

  function LeadingZeros(r: string, neg: bool, prec: nat, width: nat, f: Flags): (s: string) {
    if f.left then r
    else
      var p := PadZeros(r, prec);
      if f.zeropad then PadZeros(p, PadWidth(neg, width, f)) else p
  }

  /** How many characters '#' takes back before it writes its prefix. */
  function HashTakesBack(len: nat, base: nat, prec: nat, width: nat, f: Flags): (n: nat)
    ensures n <= len && n <= 2
  {
    if !f.precision && len > 0 && (len == prec || len == width) then (if len > 1 && base == 16 then 2 else 1) else 0
  }

  function AppendIfRoom(r: string, c: char): (s: string) {
    if |r| < BUFFER_SIZE then r + [c] else r
  }

  function HashPrefix(r: string, base: nat, prec: nat, width: nat, f: Flags): (s: string) {
    if !f.hash then r
    else
      var r1 := r[..|r| - HashTakesBack(|r|, base, prec, width, f)];
      var r2 := if base == 16 then AppendIfRoom(r1, if f.upper then 'X' else 'x')
                else if base == 2 then AppendIfRoom(r1, 'b') else r1;
      AppendIfRoom(r2, '0')
  }

  function SignText(neg: bool, f: Flags): (r: string) {
    if neg then "-" else if f.plus then "+" else if f.space then " " else ""
  }

  function AppendSign(r: string, neg: bool, f: Flags): (s: string) {
    if |r| < BUFFER_SIZE then r + SignText(neg, f) else r
  }

  /** _out_rev: the buffer reversed, with spaces before or after. */
  function OutRev(r: string, width: nat, f: Flags): (s: string) {
    var pad := Rep(' ', width - |r|);
    if f.left then Reverse(r) + pad else if f.zeropad then Reverse(r) else pad + Reverse(r)
  }

  /** _ntoa_format on a buffer that holds the digits r. */
  function Format(r: string, neg: bool, base: nat, prec: nat, width: nat, f: Flags): (s: string) {
    var w := PadWidth(neg, width, f);
    OutRev(AppendSign(HashPrefix(LeadingZeros(r, neg, prec, width, f), base, prec, w, f), neg, f), w, f)
  }

  /** _ntoa_long and _ntoa_long_long. */
  function Field(v: u64, neg: bool, base: nat, prec: nat, width: nat, f: Flags): (r: string)
    requires 2 <= base <= 16
  {
    Format(NtoaDigits(v, base, f), neg, base, prec, width, if v == 0 then f.(hash := false) else f)
  }

  /** The digits do not depend on '#'. */
  lemma FieldWithoutHash(v: u64, neg: bool, base: nat, prec: nat, width: nat, f: Flags)
    requires 2 <= base <= 16
    ensures var g := if v == 0 then f.(hash := false) else f;
      Field(v, neg, base, prec, width, f) == Format(NtoaDigits(v, base, g), neg, base, prec, width, g)
  {
  }

  // ----- What C11 asks for -----------------------------------------------------------

  function C11Digits(v: u64, base: nat, prec: nat, f: Flags): (r: string)
    requires 2 <= base <= 16
  {
    if f.precision && prec == 0 && v == 0 then ""
    else var d := Digits(v, base, f.upper); Rep('0', prec - |d|) + d
  }

  function C11Layout(d: string, neg: bool, width: nat, f: Flags): (r: string) {
    C11Justify(SignText(neg, f), d, width, f)
  }

  /** A sign or prefix s and digits d in a field of the given width. */
  function C11Justify(s: string, d: string, width: nat, f: Flags): (r: string) {
    var pad := width - |s| - |d|;
    if f.left then (s + d) + Rep(' ', pad)
    else if f.zeropad && !f.precision then s + (Rep('0', pad) + d)
    else Rep(' ', pad) + (s + d)
  }

  function C11Field(v: u64, neg: bool, base: nat, prec: nat, width: nat, f: Flags): (r: string)
    requires 2 <= base <= 16
  {
    C11Layout(C11Digits(v, base, prec, f), neg, width, f)
  }

  /** The directives whose field the code gets right: left-justified, the precision asks for
      no zeros; zero-padded, the width fits the buffer; otherwise precision and sign do. */
  predicate FieldFits(v: u64, neg: bool, base: nat, prec: nat, width: nat, f: Flags)
    requires 2 <= base <= 16
  {
    if f.left then prec <= |NtoaDigits(v, base, f)|
    else if f.zeropad then width <= BUFFER_SIZE
    else PrecisionFits(SignText(neg, f), prec, width)
  }

  predicate PrecisionFits(s: string, prec: nat, width: nat) {
    prec < BUFFER_SIZE || (prec == BUFFER_SIZE && (s == "" || (s == " " && width > BUFFER_SIZE)))
  }

  /** How _vsnprintf calls for integers without '#'. */
  predicate IntegerCall(base: nat, prec: nat, f: Flags) {
    8 <= base <= 16 && !f.hash && (f.precision ==> !f.zeropad) && (!f.precision ==> prec == 0)
  }

  lemma NtoaDigitsAre(v: u64, base: nat, f: Flags)
    requires 8 <= base <= 16
    ensures |NtoaDigits(v, base, f)| <= 24
    ensures Reverse(NtoaDigits(v, base, f)) == if f.precision && v == 0 then "" else Digits(v, base, f.upper)
  {
    SixtyFourBits(base);
    if !(f.precision && v == 0) {
      RevDigitsAll(v, base, f.upper, BUFFER_SIZE);
      RevDigitsLength(v, base, f.upper, BUFFER_SIZE, 24);
    }
  }

  lemma ZeroIsOneDigit(base: nat, upper: bool)
    requires 2 <= base <= 16
    ensures Digits(0, base, upper) == "0"
  {
  }

  // ----- Both fields in one shape ----------------------------------------------------

  /** b spaces, a sign, z zeros, digits, a spaces. */
  function Assemble(b: nat, s: string, z: nat, d: string, a: nat): (r: string) {
    Rep(' ', b) + (s + (Rep('0', z) + d)) + Rep(' ', a)
  }

  lemma AssembleLength(b: nat, s: string, z: nat, d: string, a: nat)
    ensures |Assemble(b, s, z, d, a)| == b + |s| + z + |d| + a
  {
  }

  lemma AssembleAt(b: nat, s: string, z: nat, d: string, a: nat, k: nat)
    requires k < b + |s| + z + |d| + a
    ensures Assemble(b, s, z, d, a)[k] ==
      if k < b then ' ' else if k < b + |s| then s[k - b] else if k < b + |s| + z then '0'
      else if k < b + |s| + z + |d| then d[k - b - |s| - z] else ' '
  {
  }

  /** How many zeros the code pads n digits with. */
  function ZeroCount(n: nat, neg: bool, prec: nat, width: nat, f: Flags): (r: nat)
    requires n <= BUFFER_SIZE
  {
    if f.left then 0
    else
      var m := Max(n, Min(prec, BUFFER_SIZE));
      (if f.zeropad then Max(m, Min(PadWidth(neg, width, f), BUFFER_SIZE)) else m) - n
  }

  /** The sign the code still has room for behind m characters. */
  function SignAt(m: nat, neg: bool, f: Flags): (r: string) { if m < BUFFER_SIZE then SignText(neg, f) else "" }

  lemma LeadingZerosAre(r: string, neg: bool, prec: nat, width: nat, f: Flags)
    requires |r| <= BUFFER_SIZE
    ensures LeadingZeros(r, neg, prec, width, f) == r + Rep('0', ZeroCount(|r|, neg, prec, width, f))
  {
  }

  lemma ReverseSigned(r: string, z: nat, s: string)
    requires |s| <= 1
    ensures Reverse((r + Rep('0', z)) + s) == s + (Rep('0', z) + Reverse(r))
  {
  }

  lemma EmptyEnds(t: string)
    ensures Rep(' ', 0) + t == t && t + Rep(' ', 0) == t
  {
  }

  /** The buffer, read backwards, without '#'. */
  lemma BufferShape(r: string, neg: bool, base: nat, prec: nat, width: nat, f: Flags)
    requires !f.hash && |r| <= BUFFER_SIZE
    ensures var z := ZeroCount(|r|, neg, prec, width, f);
      var s, w := SignAt(|r| + z, neg, f), PadWidth(neg, width, f);
      var b := AppendSign(HashPrefix(LeadingZeros(r, neg, prec, width, f), base, prec, w, f), neg, f);
      Reverse(b) == s + (Rep('0', z) + Reverse(r)) && |b| == |s| + z + |r|
  {
    var z := ZeroCount(|r|, neg, prec, width, f);
    LeadingZerosAre(r, neg, prec, width, f);
    ReverseSigned(r, z, SignAt(|r| + z, neg, f));
  }

  /** The code's field without '#', case by case. */
  lemma FormatLeft(r: string, neg: bool, base: nat, prec: nat, width: nat, f: Flags)
    requires !f.hash && |r| < BUFFER_SIZE && f.left
    ensures var s, d := SignText(neg, f), Reverse(r);
      Format(r, neg, base, prec, width, f) == Assemble(0, s, 0, d, Max(0, width - |s| - |d|))
  {
  }

  lemma FormatZero(r: string, neg: bool, base: nat, prec: nat, width: nat, f: Flags)
    requires !f.hash && |r| <= BUFFER_SIZE && !f.left && f.zeropad
    ensures var d := Reverse(r);
      var z := ZeroCount(|d|, neg, prec, width, f);
      Format(r, neg, base, prec, width, f) == Assemble(0, SignAt(|d| + z, neg, f), z, d, 0)
  {
    BufferShape(r, neg, base, prec, width, f);
    var z := ZeroCount(|r|, neg, prec, width, f);
    EmptyEnds(SignAt(|r| + z, neg, f) + (Rep('0', z) + Reverse(r)));
  }

  lemma FormatRight(r: string, neg: bool, base: nat, prec: nat, width: nat, f: Flags)
    requires !f.hash && |r| <= BUFFER_SIZE && !f.left && !f.zeropad
    ensures var d := Reverse(r);
      var z := Max(0, Min(prec, BUFFER_SIZE) - |d|);
      var s := SignAt(|d| + z, neg, f);
      Format(r, neg, base, prec, width, f) == Assemble(Max(0, width - |s| - z - |d|), s, z, d, 0)
  {
    hide Reverse, Rep, ZeroCount, AppendSign, HashPrefix, LeadingZeros, Assemble, SignAt, OutRev;
    BufferShape(r, neg, base, prec, width, f);
    ZeroCountPlain(|r|, neg, prec, width, f);
    var z := Max(0, Min(prec, BUFFER_SIZE) - |r|);
    var s := SignAt(|r| + z, neg, f);
    var n, t := width - |s| - z - |r|, s + (Rep('0', z) + Reverse(r));
    RepMax(' ', n);
    EmptyEnds(Rep(' ', n) + t);
    Assembled(Max(0, n), s, z, Reverse(r), 0);
    var b := AppendSign(HashPrefix(LeadingZeros(r, neg, prec, width, f), base, prec, width, f), neg, f);
    OutRevRight(b, width, f);
  }

  lemma OutRevRight(b: string, width: nat, f: Flags)
    requires !f.left && !f.zeropad
    ensures OutRev(b, width, f) == Rep(' ', width - |b|) + Reverse(b)
  {
  }

  lemma ZeroCountPlain(n: nat, neg: bool, prec: nat, width: nat, f: Flags)
    requires n <= BUFFER_SIZE && !f.left && !f.zeropad
    ensures ZeroCount(n, neg, prec, width, f) == Max(0, Min(prec, BUFFER_SIZE) - n)
  {
  }

  lemma RepMax(c: char, n: int)
    ensures Rep(c, n) == Rep(c, Max(0, n))
  {
  }

  /** The standard's digits are the code's with zeros in front. */
  lemma DigitsAgree(v: u64, base: nat, prec: nat, f: Flags)
    requires IntegerCall(base, prec, f)
    ensures C11Digits(v, base, prec, f)
         == Rep('0', Max(0, prec - |NtoaDigits(v, base, f)|)) + Reverse(NtoaDigits(v, base, f))
  {
    NtoaDigitsAre(v, base, f);
    ZeroIsOneDigit(base, f.upper);
    if f.precision && v == 0 && prec > 0 {
      assert Rep('0', prec) == Rep('0', prec - 1) + "0";
    }
  }

  /** The standard's field, case by case. */
  lemma C11Left(d: string, neg: bool, prec: nat, width: nat, f: Flags)
    requires f.left
    ensures var s, z := SignText(neg, f), Max(0, prec - |d|);
      C11Layout(Rep('0', z) + d, neg, width, f) == Assemble(0, s, z, d, Max(0, width - |s| - z - |d|))
  {
  }

  lemma C11Zero(d: string, neg: bool, width: nat, f: Flags)
    requires !f.left && f.zeropad && !f.precision
    ensures var s := SignText(neg, f);
      C11Layout(d, neg, width, f) == Assemble(0, s, Max(0, width - |s| - |d|), d, 0)
  {
  }

  lemma C11Right(d: string, neg: bool, prec: nat, width: nat, f: Flags)
    requires !f.left && !f.zeropad
    ensures var s, z := SignText(neg, f), Max(0, prec - |d|);
      C11Layout(Rep('0', z) + d, neg, width, f) == Assemble(Max(0, width - |s| - z - |d|), s, z, d, 0)
  {
  }

  // ----- The standard is met exactly when the directive fits --------------------------

  lemma LeftTexts(neg: bool, prec: nat, width: nat, f: Flags, d: string, code: string, std: string)
    requires f.left && |d| <= 24 && (d != "" ==> prec <= |d| || d[0] != '0')
    requires var s := SignText(neg, f);
      && code == Assemble(0, s, 0, d, Max(0, width - |s| - |d|))
      && std == Assemble(0, s, Max(0, prec - |d|), d, Max(0, width - |s| - Max(0, prec - |d|) - |d|))
    ensures code == std <==> prec <= |d|
  {
    if prec > |d| {
      var s := SignText(neg, f);
      var pad, pad' := Max(0, width - |s| - |d|), Max(0, width - |s| - prec);
      AssembleLength(0, s, 0, d, pad);
      AssembleAt(0, s, prec - |d|, d, pad', |s|);
      if |d| + pad > 0 { AssembleAt(0, s, 0, d, pad, |s|); }
      AssembleLength(0, s, prec - |d|, d, pad');
    }
  }

  lemma ZeroTexts(neg: bool, width: nat, f: Flags, d: string, code: string, std: string)
    requires !f.left && f.zeropad && |d| <= 24
    requires var s, z := SignText(neg, f), ZeroCount(|d|, neg, 0, width, f);
      code == Assemble(0, SignAt(|d| + z, neg, f), z, d, 0) && std == Assemble(0, s, Max(0, width - |s| - |d|), d, 0)
    ensures code == std <==> width <= BUFFER_SIZE
  {
  }

  lemma RightTexts(neg: bool, prec: nat, width: nat, f: Flags, d: string, code: string, std: string)
    requires !f.left && !f.zeropad && |d| <= 24
    requires var s, z := SignText(neg, f), Max(0, Min(prec, BUFFER_SIZE) - |d|);
      var s1, z1 := SignAt(|d| + z, neg, f), Max(0, prec - |d|);
      && code == Assemble(Max(0, width - |s1| - z - |d|), s1, z, d, 0)
      && std == Assemble(Max(0, width - |s| - z1 - |d|), s, z1, d, 0)
    ensures code == std <==> PrecisionFits(SignText(neg, f), prec, width)
  {
    if prec >= BUFFER_SIZE {
      var s, b, z := SignText(neg, f), Max(0, width - BUFFER_SIZE), BUFFER_SIZE - |d|;
      var b', z' := Max(0, width - |s| - prec), prec - |d|;
      AssembleLength(b, "", z, d, 0);
      AssembleLength(b', s, z', d, 0);
      if prec == BUFFER_SIZE && s == " " && width > BUFFER_SIZE {
        SpaceIsPadding(b', z, d);
      } else if width > BUFFER_SIZE && width >= |s| + prec {
        AssembleAt(b, "", z, d, 0, width - 33);
        AssembleAt(b', s, z', d, 0, width - 33);
      }
    }
  }

  /** No directive with a precision in play prints digits that start with a zero. */
  lemma LeadingNotZero(v: u64, base: nat, f: Flags)
    requires 8 <= base <= 16 && (v > 0 || f.precision)
    ensures var d := Reverse(NtoaDigits(v, base, f)); d != "" ==> d[0] != '0'
  {
    if v > 0 {
      SixtyFourBits(base);
      LeadingDigit(v, base, f.upper, BUFFER_SIZE);
    }
  }

  lemma SpaceIsPadding(b: nat, z: nat, d: string)
    ensures Assemble(b + 1, "", z, d, 0) == Assemble(b, " ", z, d, 0)
  {
  }

  lemma MeetsLeft(r: string, neg: bool, base: nat, prec: nat, width: nat, f: Flags)
    requires !f.hash && f.left && |r| <= 24 && (prec <= |r| || r == "" || Reverse(r)[0] != '0')
    ensures Format(r, neg, base, prec, width, f) == C11Layout(Rep('0', Max(0, prec - |r|)) + Reverse(r), neg, width, f)
            <==> prec <= |r|
  {
    hide Format, C11Layout, Assemble;
    FormatLeft(r, neg, base, prec, width, f);
    C11Left(Reverse(r), neg, prec, width, f);
    LeftTexts(neg, prec, width, f, Reverse(r), Format(r, neg, base, prec, width, f),
              C11Layout(Rep('0', Max(0, prec - |r|)) + Reverse(r), neg, width, f));
  }

  lemma MeetsZero(r: string, neg: bool, base: nat, width: nat, f: Flags)
    requires !f.hash && !f.left && f.zeropad && !f.precision && |r| <= 24
    ensures Format(r, neg, base, 0, width, f) == C11Layout(Reverse(r), neg, width, f) <==> width <= BUFFER_SIZE
  {
    hide Format, C11Layout, Assemble;
    FormatZero(r, neg, base, 0, width, f);
    C11Zero(Reverse(r), neg, width, f);
    ZeroTexts(neg, width, f, Reverse(r), Format(r, neg, base, 0, width, f), C11Layout(Reverse(r), neg, width, f));
  }

  lemma MeetsRight(r: string, neg: bool, base: nat, prec: nat, width: nat, f: Flags)
    requires !f.hash && !f.left && !f.zeropad && |r| <= 24
    ensures Format(r, neg, base, prec, width, f) == C11Layout(Rep('0', Max(0, prec - |r|)) + Reverse(r), neg, width, f)
            <==> PrecisionFits(SignText(neg, f), prec, width)
  {
    hide Format, C11Layout, Assemble;
    FormatRight(r, neg, base, prec, width, f);
    C11Right(Reverse(r), neg, prec, width, f);
    RightTexts(neg, prec, width, f, Reverse(r), Format(r, neg, base, prec, width, f),
               C11Layout(Rep('0', Max(0, prec - |r|)) + Reverse(r), neg, width, f));
  }

  /** The code's field is the standard's exactly when the directive fits. */
  lemma FieldMeetsC11(v: u64, neg: bool, base: nat, prec: nat, width: nat, f: Flags)
    requires IntegerCall(base, prec, f)
    ensures Field(v, neg, base, prec, width, f) == C11Field(v, neg, base, prec, width, f)
            <==> FieldFits(v, neg, base, prec, width, f)
  {
    hide Format, C11Layout, C11Digits, NtoaDigits, SignText;
    var r := NtoaDigits(v, base, f);
    NtoaDigitsAre(v, base, f);
    DigitsAgree(v, base, prec, f);
    assert f.(hash := false) == f;
    if f.left {
      if prec > 0 { LeadingNotZero(v, base, f); }
      MeetsLeft(r, neg, base, prec, width, f);
    } else if f.zeropad {
      assert Rep('0', 0) + Reverse(r) == Reverse(r);
      MeetsZero(r, neg, base, width, f);
    } else {
      MeetsRight(r, neg, base, prec, width, f);
    }
  }

  // ----- Length and value ------------------------------------------------------------

  /** The length of a field that fits: the wider of the width and sign, digits and the zeros
      the precision asks for. */
  lemma FittingLength(v: u64, neg: bool, base: nat, prec: nat, width: nat, f: Flags)
    requires IntegerCall(base, prec, f) && FieldFits(v, neg, base, prec, width, f)
    ensures |Field(v, neg, base, prec, width, f)|
         == Max(width, |SignText(neg, f)| + Max(prec, |NtoaDigits(v, base, f)|))
  {
    FieldMeetsC11(v, neg, base, prec, width, f);
    DigitsAgree(v, base, prec, f);
  }

  /** The length of any field. Left-justified, the precision is ignored; otherwise the buffer
      bounds zeros and sign. */
  lemma FieldLength(v: u64, neg: bool, base: nat, prec: nat, width: nat, f: Flags)
    requires IntegerCall(base, prec, f)
    ensures var s, n := |SignText(neg, f)|, |NtoaDigits(v, base, f)|;
      var m := Max(n, Min(if f.zeropad then PadWidth(neg, width, f) else prec, BUFFER_SIZE));
      var k := m + if m < BUFFER_SIZE then s else 0;
      && (f.left ==> |Field(v, neg, base, prec, width, f)| == Max(width, s + n))
      && (!f.left ==> |Field(v, neg, base, prec, width, f)| == if f.zeropad then k else Max(width, k))
  {
    hide Format, NtoaDigits;
    NtoaDigitsAre(v, base, f);
    assert f.(hash := false) == f;
    if f.left { LengthLeft(NtoaDigits(v, base, f), neg, base, prec, width, f); }
    else if f.zeropad { LengthZero(NtoaDigits(v, base, f), neg, base, width, f); }
    else { LengthRight(NtoaDigits(v, base, f), neg, base, prec, width, f); }
  }

  lemma LengthLeft(r: string, neg: bool, base: nat, prec: nat, width: nat, f: Flags)
    requires !f.hash && |r| < BUFFER_SIZE && f.left
    ensures |Format(r, neg, base, prec, width, f)| == Max(width, |SignText(neg, f)| + |r|)
  {
    hide Format, Assemble, Reverse;
    var s := SignText(neg, f);
    FormatLeft(r, neg, base, prec, width, f);
    AssembleLength(0, s, 0, Reverse(r), Max(0, width - |s| - |r|));
  }

  lemma LengthZero(r: string, neg: bool, base: nat, width: nat, f: Flags)
    requires !f.hash && |r| <= BUFFER_SIZE && !f.left && f.zeropad
    ensures var m := Max(|r|, Min(PadWidth(neg, width, f), BUFFER_SIZE));
      |Format(r, neg, base, 0, width, f)| == m + if m < BUFFER_SIZE then |SignText(neg, f)| else 0
  {
    hide Format, Assemble, Reverse, PadWidth, SignText;
    var z := ZeroCount(|r|, neg, 0, width, f);
    FormatZero(r, neg, base, 0, width, f);
    AssembleLength(0, SignAt(|r| + z, neg, f), z, Reverse(r), 0);
  }

  lemma LengthRight(r: string, neg: bool, base: nat, prec: nat, width: nat, f: Flags)
    requires !f.hash && |r| <= BUFFER_SIZE && !f.left && !f.zeropad
    ensures var m := Max(|r|, Min(prec, BUFFER_SIZE));
      |Format(r, neg, base, prec, width, f)| == Max(width, m + if m < BUFFER_SIZE then |SignText(neg, f)| else 0)
  {
    hide Format, Assemble, Reverse, SignText;
    var z := Max(0, Min(prec, BUFFER_SIZE) - |r|);
    var s := SignAt(|r| + z, neg, f);
    FormatRight(r, neg, base, prec, width, f);
    AssembleLength(Max(0, width - |s| - z - |r|), s, z, Reverse(r), 0);
  }

  lemma SignReadsNothing(s: string, base: nat)
    requires s == "" || s == "-" || s == "+" || s == " "
    ensures NoDigits(s, base) && Value(s, base) == 0
  {
  }

  lemma SpacesReadNothing(n: nat, base: nat)
    ensures NoDigits(Rep(' ', n), base) && Value(Rep(' ', n), base) == 0
  {
    ValueTrailing("", Rep(' ', n), base);
    assert "" + Rep(' ', n) == Rep(' ', n);
  }

  lemma DigitsRead(v: u64, base: nat, f: Flags)
    requires 2 <= base <= 16
    ensures Power(base, BUFFER_SIZE) > 0
    ensures Value(Reverse(NtoaDigits(v, base, f)), base) == v % Power(base, BUFFER_SIZE)
  {
    PowerPositive(base, BUFFER_SIZE);
    if f.precision && v == 0 {
      DivModUnique(0, Power(base, BUFFER_SIZE), 0, 0);
    } else {
      RevDigitsValue(v, base, f.upper, BUFFER_SIZE);
    }
  }

  /** Wherever the flags put sign, zeros and spaces, and however much of them the buffer has
      room for: without '#' every field reads back as the value, modulo what 32 digits hold. */
  lemma FieldValue(v: u64, neg: bool, base: nat, prec: nat, width: nat, f: Flags)
    requires 2 <= base <= 16 && !f.hash
    ensures Power(base, BUFFER_SIZE) > 0
    ensures Value(Field(v, neg, base, prec, width, f), base) == v % Power(base, BUFFER_SIZE)
  {
    FormatValue(NtoaDigits(v, base, f), neg, base, prec, width, f);
    DigitsRead(v, base, f);
  }

  lemma SignAtReadsNothing(m: nat, neg: bool, f: Flags, base: nat)
    ensures Value(SignAt(m, neg, f), base) == 0
  {
  }

  lemma FormatValue(r: string, neg: bool, base: nat, prec: nat, width: nat, f: Flags)
    requires base >= 1 && !f.hash && |r| <= BUFFER_SIZE
    ensures Value(Format(r, neg, base, prec, width, f), base) == Value(Reverse(r), base)
  {
    hide Value, Reverse, AppendSign, HashPrefix, LeadingZeros, ZeroCount, SignAt, PadWidth;
    var z := ZeroCount(|r|, neg, prec, width, f);
    var s := SignAt(|r| + z, neg, f);
    var pad, t := Max(0, PadWidth(neg, width, f) - |s| - z - |r|), s + (Rep('0', z) + Reverse(r));
    BufferShape(r, neg, base, prec, width, f);
    SignAtReadsNothing(|r| + z, neg, f, base);
    ZerosReadZero(z, base);
    ValueLeading(Rep('0', z), Reverse(r), base);
    ValueLeading(s, Rep('0', z) + Reverse(r), base);
    SpacesReadNothing(pad, base);
    ValueTrailing(t, Rep(' ', pad), base);
    ValueLeading(Rep(' ', pad), t, base);
    RepMax(' ', PadWidth(neg, width, f) - |s| - z - |r|);
  }

  lemma AssembleMinus(b: nat, s: string, z: nat, d: string, a: nat)
    requires '-' !in d
    ensures '-' in Assemble(b, s, z, d, a) <==> '-' in s
  {
  }

  /** A numeral holds digits only. */
  lemma {:induction false} OnlyDigits(v: nat, base: nat, upper: bool, c: char)
    requires 2 <= base <= 16 && DigitValue(c, 16) < 0
    ensures c !in Digits(v, base, upper)
  {
    if v >= base {
      OnlyDigits(v / base, base, upper, c);
      DigitRoundTrip(v % base, 16, upper);
    } else {
      DigitRoundTrip(v, 16, upper);
    }
  }

  /** In bases 8, 10 and 16 that is the value itself, and a '-' stands for a negative one. */
  lemma FieldRoundTrip(v: u64, neg: bool, base: nat, prec: nat, width: nat, f: Flags)
    requires IntegerCall(base, prec, f) && FieldFits(v, neg, base, prec, width, f)
    ensures Value(Field(v, neg, base, prec, width, f), base) == v
    ensures '-' in Field(v, neg, base, prec, width, f) <==> neg
  {
    FieldValue(v, neg, base, prec, width, f);
    SixtyFourBits(base);
    DivModUnique(v, Power(base, BUFFER_SIZE), 0, v);
    FieldMeetsC11(v, neg, base, prec, width, f);
    C11Minus(v, neg, base, prec, width, f);
  }

  lemma C11Minus(v: u64, neg: bool, base: nat, prec: nat, width: nat, f: Flags)
    requires IntegerCall(base, prec, f)
    ensures '-' in C11Field(v, neg, base, prec, width, f) <==> neg
  {
    var r, s := NtoaDigits(v, base, f), SignText(neg, f);
    NtoaDigitsAre(v, base, f);
    OnlyDigits(v, base, f.upper, '-');
    var z := Max(0, prec - |r|);
    DigitsAgree(v, base, prec, f);
    if f.left {
      C11Left(Reverse(r), neg, prec, width, f);
      AssembleMinus(0, s, z, Reverse(r), Max(0, width - |s| - z - |r|));
    } else if f.zeropad {
      assert Rep('0', 0) + Reverse(r) == Reverse(r);
      C11Zero(Reverse(r), neg, width, f);
      AssembleMinus(0, s, Max(0, width - |s| - |r|), Reverse(r), 0);
    } else {
      C11Right(Reverse(r), neg, prec, width, f);
      AssembleMinus(Max(0, width - |s| - z - |r|), s, z, Reverse(r), 0);
    }
    assert '-' in s <==> neg;
  }

  // ----- '#' -------------------------------------------------------------------------

  /** '#' takes back more characters than there are padding zeros: digits are lost. n is the
      number of digits. */
  predicate HashClips(n: nat, neg: bool, base: nat, prec: nat, width: nat, f: Flags)
    requires n <= BUFFER_SIZE
  {
    var z := ZeroCount(n, neg, prec, width, f);
    HashTakesBack(n + z, base, prec, PadWidth(neg, width, f), f) > z
  }

  lemma OutRevValue(b: string, width: nat, f: Flags, base: nat)
    ensures Value(OutRev(b, width, f), base) == Value(Reverse(b), base)
  {
    var pad := Max(0, width - |b|);
    RepMax(' ', width - |b|);
    SpacesReadNothing(pad, base);
    ValueTrailing(Reverse(b), Rep(' ', pad), base);
    ValueLeading(Rep(' ', pad), Reverse(b), base);
  }

  /** Characters appended to the buffer that read as zero change nothing. */
  lemma AppendedValue(b: string, t: string, base: nat)
    requires Value(Reverse(t), base) == 0
    ensures Value(Reverse(b + t), base) == Value(Reverse(b), base)
  {
    ReverseConcat(b, t);
    ValueLeading(Reverse(t), Reverse(b), base);
  }

  lemma OneCharValue(c: char, base: nat)
    requires DigitValue(c, base) <= 0
    ensures Value(Reverse([c]), base) == 0
  {
  }

  lemma {:induction false} LargerWithPrefix(p: string, s: string, base: nat)
    requires base >= 2 && Value(p, base) > 0
    ensures Value(p + s, base) > Value(s, base)
    decreases |s|
  {
    if s == "" {
      assert p + s == p;
    } else {
      hide Value, DigitValue;
      var s', c := s[..|s| - 1], s[|s| - 1];
      LargerWithPrefix(p, s', base);
      assert p + s == (p + s') + [c] && s == s' + [c];
      ValueSnoc(p + s', c, base);
      ValueSnoc(s', c, base);
      Shifted(Value(p + s', base), Value(s', base), base);
    }
  }

  lemma Shifted(x: nat, y: nat, base: nat)
    requires x > y && base > 0
    ensures x * base > y * base
  {
  }

  /** Dropping leading digits, the first of which is not 0, changes the value. */
  lemma ClippedValue(r: string, k: nat, base: nat)
    requires base >= 2 && 0 < k <= |r| && DigitValue(r[|r| - 1], base) > 0
    ensures Value(Reverse(r[..|r| - k]), base) < Value(Reverse(r), base)
  {
    var low, top := r[..|r| - k], Reverse(r[|r| - k..]);
    assert r == low + r[|r| - k..];
    ReverseConcat(low, r[|r| - k..]);
    var c := r[|r| - 1];
    assert top == [c] + top[1..];
    ValueSnoc("", c, base);
    assert "" + [c] == [c];
    LargerWithPrefix([c], top[1..], base);
    LargerWithPrefix(top, Reverse(low), base);
  }

  /** What '#' and the sign leave of the digits. */
  lemma HashShape(r1: string, neg: bool, base: nat, prec: nat, width: nat, f: Flags)
    requires f.hash && (base == 2 || base == 8 || base == 16)
    ensures var kept := r1[..|r1| - HashTakesBack(|r1|, base, prec, width, f)];
      Value(Reverse(AppendSign(HashPrefix(r1, base, prec, width, f), neg, f)), base) == Value(Reverse(kept), base)
  {
    hide Value, HashTakesBack;
    var kept := r1[..|r1| - HashTakesBack(|r1|, base, prec, width, f)];
    var mark := if f.upper then 'X' else 'x';
    OneCharValue(mark, 16);
    OneCharValue('b', 2);
    OneCharValue('0', base);
    AppendedValue(kept, [mark], 16);
    AppendedValue(kept, ['b'], 2);
    var r2 := if base == 16 then AppendIfRoom(kept, mark) else if base == 2 then AppendIfRoom(kept, 'b') else kept;
    AppendedValue(r2, ['0'], base);
    var r3, s := AppendIfRoom(r2, '0'), SignText(neg, f);
    assert Reverse(s) == s;
    SignReadsNothing(s, base);
    AppendedValue(r3, s, base);
  }

  /** With '#' a field reads back as its value exactly when '#' clips no digits. */
  lemma HashKeepsValue(v: u64, neg: bool, base: nat, prec: nat, width: nat, f: Flags)
    requires f.hash && (base == 2 || base == 8 || base == 16) && 0 < v < Power(base, BUFFER_SIZE)
    ensures Value(Field(v, neg, base, prec, width, f), base) == v
            <==> !HashClips(|NtoaDigits(v, base, f)|, neg, base, prec, width, f)
  {
    hide Format, HashClips;
    var r := NtoaDigits(v, base, f);
    DigitsRead(v, base, f);
    DivModUnique(v, Power(base, BUFFER_SIZE), 0, v);
    LeadingDigit(v, base, f.upper, BUFFER_SIZE);
    HashFormat(r, neg, base, prec, width, f);
  }

  lemma KeptValue(r: string, z: nat, t: nat, base: nat)
    requires base >= 2 && 0 < |r| && t <= |r| + z && DigitValue(r[|r| - 1], base) > 0
    ensures var r1 := r + Rep('0', z);
      Value(Reverse(r1[..|r1| - t]), base) == Value(Reverse(r), base) <==> t <= z
  {
    var r1 := r + Rep('0', z);
    if t <= z {
      assert r1[..|r1| - t] == r + Rep('0', z - t);
      ZerosReadZero(z - t, base);
      assert Reverse(Rep('0', z - t)) == Rep('0', z - t);
      AppendedValue(r, Rep('0', z - t), base);
    } else {
      assert r1[..|r1| - t] == r[..|r| - (t - z)];
      ClippedValue(r, t - z, base);
    }
  }

  lemma HashFormat(r: string, neg: bool, base: nat, prec: nat, width: nat, f: Flags)
    requires f.hash && (base == 2 || base == 8 || base == 16)
    requires 0 < |r| <= BUFFER_SIZE && DigitValue(r[|r| - 1], base) > 0
    ensures Value(Format(r, neg, base, prec, width, f), base) == Value(Reverse(r), base)
            <==> !HashClips(|r|, neg, base, prec, width, f)
  {
    hide OutRev, HashPrefix, AppendSign, LeadingZeros, Value, ZeroCount, PadWidth, HashTakesBack, Reverse;
    var w, z := PadWidth(neg, width, f), ZeroCount(|r|, neg, prec, width, f);
    var r1 := r + Rep('0', z);
    LeadingZerosAre(r, neg, prec, width, f);
    HashShape(r1, neg, base, prec, w, f);
    OutRevValue(AppendSign(HashPrefix(r1, base, prec, w, f), neg, f), w, f, base);
    KeptValue(r, z, HashTakesBack(|r1|, base, prec, w, f), base);
  }

  // ----- '#' and the standard --------------------------------------------------------

  function HexMark(f: Flags): (r: string) { if f.upper then "0X" else "0x" }

  /** What C11 asks of "%#o" and "%#x": an octal numeral that starts with a zero; a
      hexadecimal one, unless it is 0, behind 0x. */
  function C11HashField(v: u64, base: nat, prec: nat, width: nat, f: Flags): (r: string)
    requires base == 8 || base == 16
  {
    var d := C11Digits(v, base, prec, f);
    if base == 16 then C11Justify(if v == 0 then "" else HexMark(f), d, width, f)
    else C11Justify("", if d != "" && d[0] == '0' then d else "0" + d, width, f)
  }

  /** How _vsnprintf calls with '#': for unsigned conversions. */
  predicate HashCall(base: nat, prec: nat, f: Flags) {
    && (base == 8 || base == 16) && f.hash && !f.plus && !f.space
    && (f.precision ==> !f.zeropad) && (!f.precision ==> prec == 0)
  }

  /** The directives with '#' whose field the code gets right, for a numeral of n digits that is
      not 0: the width is not that of the digits alone, nor, zero-padded, of digits and half
      the prefix; a precision leaves room for the prefix, or needs none. */
  predicate HashFits(n: nat, base: nat, prec: nat, width: nat, f: Flags) {
    if f.precision then
      if f.left then prec <= (if base == 16 then n else n + 1)
      else if base == 16 then prec <= 30 else prec <= n || prec == BUFFER_SIZE
    else if f.left || !f.zeropad then width != n
    else if base == 16 then width < n || n + 2 <= width <= BUFFER_SIZE
    else width != n && width <= BUFFER_SIZE
  }

  /** As much of the prefix as the buffer has room for behind m characters. */
  function MarkAt(m: nat, base: nat, f: Flags): (r: string) {
    if base == 16 then (if m + 1 < BUFFER_SIZE then HexMark(f) else if m < BUFFER_SIZE then HexMark(f)[1..] else "")
    else if m < BUFFER_SIZE then "0" else ""
  }

  /** The buffer with its prefix, read backwards. */
  lemma MarkedBackwards(kept: string, base: nat, f: Flags, prec: nat, width: nat, r1: string)
    requires f.hash && !f.plus && !f.space && (base == 8 || base == 16) && |kept| <= BUFFER_SIZE
    requires kept == r1[..|r1| - HashTakesBack(|r1|, base, prec, width, f)]
    ensures var b := AppendSign(HashPrefix(r1, base, prec, width, f), false, f);
      Reverse(b) == MarkAt(|kept|, base, f) + Reverse(kept) && |b| == |MarkAt(|kept|, base, f)| + |kept|
  {
    hide HashTakesBack;
    var b := AppendSign(HashPrefix(r1, base, prec, width, f), false, f);
    var mark := Reverse(MarkAt(|kept|, base, f));
    assert HexMark(f)[1..] == [HexMark(f)[1]];
    assert b == kept + mark;
    ReverseConcat(kept, mark);
    assert Reverse(mark) == MarkAt(|kept|, base, f);
  }

  lemma ZeroCountFits(n: nat, prec: nat, width: nat, f: Flags)
    requires n <= BUFFER_SIZE
    ensures n + ZeroCount(n, false, prec, width, f) <= BUFFER_SIZE
  {
  }

  /** The code's field with '#', when no digit is clipped. */
  lemma HashShapeOf(r: string, base: nat, prec: nat, width: nat, f: Flags)
    requires HashCall(base, prec, f) && |r| <= 24 && !HashClips(|r|, false, base, prec, width, f)
    ensures var z := ZeroCount(|r|, false, prec, width, f);
      var t := HashTakesBack(|r| + z, base, prec, width, f);
      var p := MarkAt(|r| + z - t, base, f);
      var pad := Max(0, width - (|r| + z - t) - |p|);
      t <= z &&
      Format(r, false, base, prec, width, f) == Assemble(if f.left || f.zeropad then 0 else pad, p, z - t, Reverse(r),
                                                         if f.left then pad else 0)
  {
    hide HashPrefix, AppendSign, MarkAt, Reverse, HashTakesBack, ZeroCount, LeadingZeros, Rep, Assemble;
    var z := ZeroCount(|r|, false, prec, width, f);
    var r1 := r + Rep('0', z);
    var t := HashTakesBack(|r1|, base, prec, width, f);
    ZeroCountFits(|r|, prec, width, f);
    var kept := r + Rep('0', z - t);
    var p := MarkAt(|kept|, base, f);
    LeadingZerosAre(r, false, prec, width, f);
    assert kept == r1[..|r1| - t];
    MarkedBackwards(kept, base, f, prec, width, r1);
    ReverseConcat(r, Rep('0', z - t));
    RepBackwards('0', z - t);
    var text := p + (Rep('0', z - t) + Reverse(r));
    var pad := width - |kept| - |p|;
    RepMax(' ', pad);
    EmptyEnds(text);
    EmptyEnds(Rep(' ', pad) + text);
    Assembled(if f.left || f.zeropad then 0 else Max(0, pad), p, z - t, Reverse(r), if f.left then Max(0, pad) else 0);
  }

  lemma RepBackwards(c: char, n: int)
    ensures Reverse(Rep(c, n)) == Rep(c, n)
  {
  }

  /** The standard's field with '#', for a numeral d. */
  lemma C11Shape(s: string, z: nat, d: string, width: nat, f: Flags)
    requires f.precision ==> !f.zeropad
    ensures var pad := Max(0, width - |s| - z - |d|);
      C11Justify(s, Rep('0', z) + d, width, f) ==
      if f.left then Assemble(0, s, z, d, pad) else if f.zeropad then Assemble(0, s, z + pad, d, 0)
      else Assemble(pad, s, z, d, 0)
  {
    hide C11Justify, Rep, Assemble;
    var pad := Max(0, width - |s| - z - |d|);
    JustifyShape(s, Rep('0', z) + d, width, f);
    RepJoin(pad, z, d);
    Assembled(0, s, z, d, pad);
    Assembled(0, s, z + pad, d, 0);
    Assembled(pad, s, z, d, 0);
  }

  lemma Assembled(b: nat, s: string, z: nat, d: string, a: nat)
    ensures Assemble(b, s, z, d, a) == Rep(' ', b) + (s + (Rep('0', z) + d)) + Rep(' ', a)
  {
  }

  lemma JustifyShape(s: string, d: string, width: nat, f: Flags)
    requires f.precision ==> !f.zeropad
    ensures var pad := Max(0, width - |s| - |d|);
      C11Justify(s, d, width, f) ==
      if f.left then Rep(' ', 0) + (s + d) + Rep(' ', pad)
      else if f.zeropad then Rep(' ', 0) + (s + (Rep('0', pad) + d)) + Rep(' ', 0)
      else Rep(' ', pad) + (s + d) + Rep(' ', 0)
  {
    hide Rep;
    var n := width - |s| - |d|;
    RepMax(' ', n);
    RepMax('0', n);
    EmptyEnds(s + d);
    EmptyEnds(s + (Rep('0', Max(0, n)) + d));
    EmptyEnds(Rep(' ', Max(0, n)) + (s + d));
  }

  lemma RepJoin(m: nat, n: nat, d: string)
    ensures Rep('0', m) + (Rep('0', n) + d) == Rep('0', n + m) + d
  {
  }

  /** A numeral without leading zero between two paddings determines the zeros before it ... */
  lemma SameLeft(p: string, z: nat, z': nat, d: string, a: nat, a': nat)
    requires d != "" && d[0] != '0'
    ensures Assemble(0, p, z, d, a) == Assemble(0, p, z', d, a') <==> z == z' && a == a'
  {
    AssembleLength(0, p, z, d, a);
    AssembleLength(0, p, z', d, a');
    if z < z' { Differ(0, p, z, z', d, a, a'); }
    if z' < z { Differ(0, p, z', z, d, a', a); }
  }

  lemma Differ(b: nat, p: string, z: nat, z': nat, d: string, a: nat, a': nat)
    requires d != "" && d[0] != '0' && z < z'
    ensures Assemble(b, p, z, d, a) != Assemble(b, p, z', d, a')
  {
    AssembleLength(b, p, z, d, a);
    AssembleLength(b, p, z', d, a');
    AssembleAt(b, p, z, d, a, b + |p| + z);
    AssembleAt(b, p, z', d, a', b + |p| + z);
  }

  /** ... and, to the right, the spaces before these. */
  lemma SameRight(b: nat, b': nat, p: string, p': string, z: nat, z': nat, d: string)
    requires d != "" && d[0] != '0' && d[0] != ' '
    requires (p != "" ==> p[0] != ' ') && (p' != "" ==> p'[0] != ' ')
    ensures Assemble(b, p, z, d, 0) == Assemble(b', p', z', d, 0) ==> b == b'
    ensures Assemble(b, p, z, d, 0) == Assemble(b', p, z', d, 0) <==> b == b' && z == z'
  {
    FirstMark(b, p, z, d);
    FirstMark(b', p', z', d);
    FirstMark(b', p, z', d);
    if b == b' && z < z' { Differ(b, p, z, z', d, 0, 0); }
    if b == b' && z' < z { Differ(b, p, z', z, d, 0, 0); }
  }

  lemma FirstMark(b: nat, p: string, z: nat, d: string)
    requires d != "" && d[0] != ' ' && (p != "" ==> p[0] != ' ')
    ensures var t := Assemble(b, p, z, d, 0); |t| > b && t[b] != ' ' && forall k :: 0 <= k < b ==> t[k] == ' '
  {
    AssembleLength(b, p, z, d, 0);
    AssembleAt(b, p, z, d, 0, b);
    forall k | 0 <= k < b ensures Assemble(b, p, z, d, 0)[k] == ' ' {
      AssembleAt(b, p, z, d, 0, k);
    }
  }

  /** A zero written as a prefix. */
  lemma ZeroMark(b: nat, z: nat, d: string, a: nat)
    ensures Assemble(b, "0", z, d, a) == Assemble(b, "", z + 1, d, a)
  {
    assert "0" + (Rep('0', z) + d) == "" + (Rep('0', z + 1) + d);
  }

  // ----- Octal: n digits, the first not 0 ----------------------------------------------

  /** The counts of zeros and spaces of code and standard. */
  lemma OctalFits(n: nat, prec: nat, width: nat, f: Flags)
    requires HashCall(8, prec, f) && 0 < n <= 24 && !HashClips(n, false, 8, prec, width, f)
    ensures var z := ZeroCount(n, false, prec, width, f);
      var t := HashTakesBack(n + z, 8, prec, width, f);
      var m := if n + z - t < BUFFER_SIZE then 1 else 0;
      var k, pad := z - t + m, Max(0, width - (n + z - t) - m);
      var z' := Max(1, prec - n);
      var pad' := Max(0, width - z' - n);
      && z >= t
      && (HashFits(n, 8, prec, width, f) <==>
          if f.left || !f.zeropad then k == z' && pad == pad' else k == z' + pad')
  {
  }

  lemma OctalTexts(d: string, prec: nat, width: nat, f: Flags, code: string, std: string)
    requires HashCall(8, prec, f) && 0 < |d| <= 24 && d[0] != '0' && d[0] != ' '
    requires !HashClips(|d|, false, 8, prec, width, f)
    requires var z := ZeroCount(|d|, false, prec, width, f);
      var t := HashTakesBack(|d| + z, 8, prec, width, f);
      var p := MarkAt(|d| + z - t, 8, f);
      var pad := Max(0, width - (|d| + z - t) - |p|);
      t <= z && code == Assemble(if f.left || f.zeropad then 0 else pad, p, z - t, d, if f.left then pad else 0)
    requires var z := Max(1, prec - |d|);
      var pad := Max(0, width - z - |d|);
      std == if f.left then Assemble(0, "", z, d, pad) else if f.zeropad then Assemble(0, "", z + pad, d, 0)
             else Assemble(pad, "", z, d, 0)
    ensures code == std <==> HashFits(|d|, 8, prec, width, f)
  {
    hide Assemble, ZeroCount, HashTakesBack, HashFits, HashClips, Rep;
    OctalFits(|d|, prec, width, f);
    var z := ZeroCount(|d|, false, prec, width, f);
    var t := HashTakesBack(|d| + z, 8, prec, width, f);
    var p := MarkAt(|d| + z - t, 8, f);
    var pad := Max(0, width - (|d| + z - t) - |p|);
    var k := z - t + |p|;
    if p == "0" { ZeroMark(if f.left || f.zeropad then 0 else pad, z - t, d, if f.left then pad else 0); }
    assert code == Assemble(if f.left || f.zeropad then 0 else pad, "", k, d, if f.left then pad else 0);
    var z' := Max(1, prec - |d|);
    var pad' := Max(0, width - z' - |d|);
    if f.left {
      SameLeft("", k, z', d, pad, pad');
    } else if f.zeropad {
      SameLeft("", k, z' + pad', d, 0, 0);
    } else {
      SameRight(pad, pad', "", "", k, z', d);
    }
  }

  // ----- Hexadecimal -----------------------------------------------------------------

  lemma HexFits(n: nat, prec: nat, width: nat, f: Flags)
    requires HashCall(16, prec, f) && 0 < n <= 24 && !HashClips(n, false, 16, prec, width, f)
    ensures var z := ZeroCount(n, false, prec, width, f);
      var t := HashTakesBack(n + z, 16, prec, width, f);
      var m := if n + z - t + 1 < BUFFER_SIZE then 2 else if n + z - t < BUFFER_SIZE then 1 else 0;
      var pad := Max(0, width - (n + z - t) - m);
      var z' := Max(0, prec - n);
      var pad' := Max(0, width - 2 - z' - n);
      && z >= t && (f.left ==> m == 2)
      && (HashFits(n, 16, prec, width, f) <==>
          m == 2 && if f.left || !f.zeropad then z - t == z' && pad == pad' else z - t == z' + pad')
      && (f.zeropad && !f.left && m < 2 ==> m + (z - t) + n != 2 + (z' + pad') + n)
  {
  }

  lemma HexTexts(d: string, prec: nat, width: nat, f: Flags, code: string, std: string)
    requires HashCall(16, prec, f) && 0 < |d| <= 24 && d[0] != '0' && d[0] != ' ' && HexMark(f)[1] !in d
    requires !HashClips(|d|, false, 16, prec, width, f)
    requires var z := ZeroCount(|d|, false, prec, width, f);
      var t := HashTakesBack(|d| + z, 16, prec, width, f);
      var p := MarkAt(|d| + z - t, 16, f);
      var pad := Max(0, width - (|d| + z - t) - |p|);
      t <= z && code == Assemble(if f.left || f.zeropad then 0 else pad, p, z - t, d, if f.left then pad else 0)
    requires var z := Max(0, prec - |d|);
      var pad := Max(0, width - 2 - z - |d|);
      std == if f.left then Assemble(0, HexMark(f), z, d, pad)
             else if f.zeropad then Assemble(0, HexMark(f), z + pad, d, 0)
             else Assemble(pad, HexMark(f), z, d, 0)
    ensures code == std <==> HashFits(|d|, 16, prec, width, f)
  {
    hide Assemble, ZeroCount, HashTakesBack, HashFits, HashClips, Rep;
    HexFits(|d|, prec, width, f);
    var z := ZeroCount(|d|, false, prec, width, f);
    var t := HashTakesBack(|d| + z, 16, prec, width, f);
    var p := MarkAt(|d| + z - t, 16, f);
    var pad := Max(0, width - (|d| + z - t) - |p|);
    var z' := Max(0, prec - |d|);
    var pad' := Max(0, width - 2 - z' - |d|);
    if f.left {
      SameLeft(HexMark(f), z - t, z', d, pad, pad');
    } else if f.zeropad {
      if p == HexMark(f) {
        SameLeft(p, z - t, z' + pad', d, 0, 0);
      } else {
        AssembleLength(0, p, z - t, d, 0);
        AssembleLength(0, HexMark(f), z' + pad', d, 0);
      }
    } else if p == HexMark(f) {
      SameRight(pad, pad', p, p, z - t, z', d);
    } else {
      SameRight(pad, pad', p, HexMark(f), z - t, z', d);
      if pad == pad' { MarkCutShort(pad, p, z - t, z', d, f); }
    }
  }

  /** A prefix the buffer had no room for shows. */
  lemma MarkCutShort(b: nat, p: string, z: nat, z': nat, d: string, f: Flags)
    requires (p == "" || p == HexMark(f)[1..]) && d != "" && HexMark(f)[1] !in d
    ensures Assemble(b, p, z, d, 0) != Assemble(b, HexMark(f), z', d, 0)
  {
    AssembleLength(b, p, z, d, 0);
    AssembleLength(b, HexMark(f), z', d, 0);
    AssembleAt(b, HexMark(f), z', d, 0, b);
    AssembleAt(b, HexMark(f), z', d, 0, b + 1);
    AssembleAt(b, p, z, d, 0, b);
    if p == "" && z + |d| > 1 { AssembleAt(b, p, z, d, 0, b + 1); }
  }

  // ----- '#' meets the standard exactly when the directive fits -------------------------

  lemma AssembleValue(b: nat, s: string, z: nat, d: string, a: nat, base: nat)
    requires base >= 1 && Value(s, base) == 0
    ensures Value(Assemble(b, s, z, d, a), base) == Value(d, base)
  {
    hide Value;
    ZerosReadZero(z, base);
    ValueLeading(Rep('0', z), d, base);
    ValueLeading(s, Rep('0', z) + d, base);
    SpacesReadNothing(b, base);
    SpacesReadNothing(a, base);
    ValueLeading(Rep(' ', b), s + (Rep('0', z) + d), base);
    ValueTrailing(Rep(' ', b) + (s + (Rep('0', z) + d)), Rep(' ', a), base);
  }

  lemma MarkReadsNothing(f: Flags, base: nat)
    ensures Value("", base) == 0 && Value(HexMark(f), 16) == 0
  {
    var x := HexMark(f)[1];
    ValueSnoc("0", x, 16);
    ValueSnoc("", '0', 16);
    assert HexMark(f) == "0" + [x] && "" + ['0'] == "0";
  }

  /** The standard's field with '#' as spaces, prefix, zeros and digits. */
  lemma C11HashShape(v: u64, base: nat, prec: nat, width: nat, f: Flags)
    requires HashCall(base, prec, f) && v > 0
    ensures var d := Reverse(NtoaDigits(v, base, f));
      var s, z := if base == 16 then HexMark(f) else "", Max(if base == 16 then 0 else 1, prec - |d|);
      var pad := Max(0, width - |s| - z - |d|);
      C11HashField(v, base, prec, width, f) ==
      if f.left then Assemble(0, s, z, d, pad) else if f.zeropad then Assemble(0, s, z + pad, d, 0)
      else Assemble(pad, s, z, d, 0)
  {
    hide C11Justify, Assemble, NtoaDigits, Digits, Reverse, HexMark, Rep;
    NtoaDigitsAre(v, base, f);
    LeadingNotZero(v, base, f);
    var d := Reverse(NtoaDigits(v, base, f));
    RepMax('0', prec - |d|);
    OctalDigits(d, prec);
    C11Shape(if base == 16 then HexMark(f) else "", Max(if base == 16 then 0 else 1, prec - |d|), d, width, f);
  }

  /** A zero is put in front of an octal numeral if there is none. */
  lemma OctalDigits(d: string, prec: nat)
    requires d != "" && d[0] != '0'
    ensures var x := Rep('0', prec - |d|) + d;
      (if x != "" && x[0] == '0' then x else "0" + x) == Rep('0', Max(1, prec - |d|)) + d
  {
    RepMax('0', prec - |d|);
    if prec <= |d| { assert Rep('0', prec - |d|) + d == d && Rep('0', 1) == "0"; }
  }

  /** A field whose digits are clipped is not the standard's, which reads as the value. */
  lemma ClippedIsWrong(v: u64, base: nat, prec: nat, width: nat, f: Flags)
    requires HashCall(base, prec, f) && v > 0 && |NtoaDigits(v, base, f)| <= BUFFER_SIZE
    requires HashClips(|NtoaDigits(v, base, f)|, false, base, prec, width, f)
    ensures Field(v, false, base, prec, width, f) != C11HashField(v, base, prec, width, f)
  {
    hide Field, C11HashField, NtoaDigits, HashClips, Value, Assemble, Reverse;
    SixtyFourBits(base);
    HashKeepsValue(v, false, base, prec, width, f);
    C11HashShape(v, base, prec, width, f);
    DigitsRead(v, base, f);
    DivModUnique(v, Power(base, BUFFER_SIZE), 0, v);
    var d := Reverse(NtoaDigits(v, base, f));
    var s, z := if base == 16 then HexMark(f) else "", Max(if base == 16 then 0 else 1, prec - |d|);
    var pad := Max(0, width - |s| - z - |d|);
    MarkReadsNothing(f, base);
    if f.left { AssembleValue(0, s, z, d, pad, base); }
    else if f.zeropad { AssembleValue(0, s, z + pad, d, 0, base); }
    else { AssembleValue(pad, s, z, d, 0, base); }
  }

  lemma ClipsDoNotFit(n: nat, base: nat, prec: nat, width: nat, f: Flags)
    requires HashCall(base, prec, f) && 0 < n <= 24 && HashClips(n, false, base, prec, width, f)
    ensures !HashFits(n, base, prec, width, f)
  {
  }

  /** The code's field with '#' is the standard's exactly when the directive fits. */
  lemma HashMeetsC11(v: u64, base: nat, prec: nat, width: nat, f: Flags)
    requires HashCall(base, prec, f) && v > 0
    ensures Field(v, false, base, prec, width, f) == C11HashField(v, base, prec, width, f)
            <==> HashFits(|NtoaDigits(v, base, f)|, base, prec, width, f)
  {
    hide Format, C11HashField, NtoaDigits, HashClips, HashFits, Assemble, Reverse, Digits;
    hide ZeroCount, HashTakesBack, MarkAt;
    var r := NtoaDigits(v, base, f);
    NtoaDigitsAre(v, base, f);
    NumeralFacts(v, base, f);
    if HashClips(|r|, false, base, prec, width, f) {
      ClippedIsWrong(v, base, prec, width, f);
      ClipsDoNotFit(|r|, base, prec, width, f);
    } else {
      HashShapeOf(r, base, prec, width, f);
      C11HashShape(v, base, prec, width, f);
      var code, std := Field(v, false, base, prec, width, f), C11HashField(v, base, prec, width, f);
      if base == 8 { OctalTexts(Reverse(r), prec, width, f, code, std); }
      else { HexTexts(Reverse(r), prec, width, f, code, std); }
    }
  }

  lemma NumeralFacts(v: u64, base: nat, f: Flags)
    requires v > 0 && 8 <= base <= 16
    ensures var d := Reverse(NtoaDigits(v, base, f));
      d != "" && d[0] != '0' && d[0] != ' ' && HexMark(f)[1] !in d
  {
    NtoaDigitsAre(v, base, f);
    LeadingNotZero(v, base, f);
    OnlyDigits(v, base, f.upper, ' ');
    OnlyDigits(v, base, f.upper, HexMark(f)[1]);
  }

  lemma ZeroHasNoHash(base: nat, prec: nat, width: nat, f: Flags)
    requires HashCall(base, prec, f)
    ensures var g := f.(hash := false);
      && Field(0, false, base, prec, width, f) == Field(0, false, base, prec, width, g)
      && (FieldFits(0, false, base, prec, width, f) <==> FieldFits(0, false, base, prec, width, g))
  {
    hide Format, RevDigits, PrecisionFits;
  }

  lemma C11HashOfZero(base: nat, prec: nat, width: nat, f: Flags)
    requires HashCall(base, prec, f) && !(base == 8 && f.precision && prec == 0)
    ensures C11HashField(0, base, prec, width, f) == C11Field(0, false, base, prec, width, f.(hash := false))
  {
    ZeroIsOneDigit(base, f.upper);
    var d := C11Digits(0, base, prec, f);
    assert C11Digits(0, base, prec, f.(hash := false)) == d;
    assert base == 8 ==> d[0] == '0';
    hide Digits, C11Digits;
    assert C11Justify("", d, width, f) == C11Justify("", d, width, f.(hash := false));
  }

  /** For 0 the code drops '#', which is what C11 asks for but for an octal 0 of precision 0. */
  lemma HashOfZero(base: nat, prec: nat, width: nat, f: Flags)
    requires HashCall(base, prec, f)
    ensures Field(0, false, base, prec, width, f) == C11HashField(0, base, prec, width, f)
            <==> FieldFits(0, false, base, prec, width, f) && !(base == 8 && f.precision && prec == 0)
  {
    hide Field, C11HashField, C11Field, FieldFits;
    ZeroHasNoHash(base, prec, width, f);
    FieldMeetsC11(0, false, base, prec, width, f.(hash := false));
    if base == 8 && f.precision && prec == 0 {
      ZeroShown(width, f);
    } else {
      C11HashOfZero(base, prec, width, f);
    }
  }

  lemma ZeroShown(width: nat, f: Flags)
    requires HashCall(8, 0, f) && f.precision
    ensures '0' !in Field(0, false, 8, 0, width, f) && '0' in C11HashField(0, 8, 0, width, f)
  {
    C11Shape("", 0, "0", width, f);
    assert Rep('0', 0) + "0" == "0";
    AssembleHas(if f.left then 0 else Max(0, width - 1), "0", if f.left then Max(0, width - 1) else 0, '0');
  }

  lemma AssembleHas(b: nat, d: string, a: nat, c: char)
    requires c in d
    ensures c in Assemble(b, "", 0, d, a)
  {
  }

  // ----- A precision below 0 -----------------------------------------------------------

  /** The flags of a directive after a negative precision argument, as the code has them; C11
      has f, for to the standard no precision was given. */
  function NoPrecision(f: Flags): (g: Flags) {
    f.(precision := true, zeropad := false)
  }

  /** With a negative precision argument the code's field is the standard's if and only if the
      value is not 0 and the '0' flag has nothing to do. */
  lemma NegativePrecision(v: u64, neg: bool, base: nat, width: nat, f: Flags)
    requires 8 <= base <= 16 && !f.hash && !f.precision
    ensures Field(v, neg, base, 0, width, NoPrecision(f)) == C11Field(v, neg, base, 0, width, f)
            <==> v != 0 && (f.left || !f.zeropad || width <= |SignText(neg, f)| + |Digits(v, base, f.upper)|)
  {
    hide Field, C11Field, C11Layout, Digits, NtoaDigits;
    var g, d, s := NoPrecision(f), Digits(v, base, f.upper), SignText(neg, f);
    FieldMeetsC11(v, neg, base, 0, width, g);
    NegativeFields(v, neg, base, width, f);
    assert '0' !in s;
    if v != 0 {
      PaddedOrNot(s, d, width, f);
    } else {
      ZeroIsOneDigit(base, f.upper);
      NoDigitShown(s, d, width, f);
    }
  }

  lemma NegativeFields(v: u64, neg: bool, base: nat, width: nat, f: Flags)
    requires 8 <= base <= 16 && !f.hash && !f.precision
    ensures var g, d, s := NoPrecision(f), Digits(v, base, f.upper), SignText(neg, f);
      && FieldFits(v, neg, base, 0, width, g) && s == SignText(neg, g)
      && C11Field(v, neg, base, 0, width, g) == C11Justify(s, if v == 0 then "" else d, width, g)
      && C11Field(v, neg, base, 0, width, f) == C11Justify(s, d, width, f)
  {
    hide Digits, C11Justify;
    NoZeros(Digits(v, base, f.upper));
  }

  lemma NoZeros(d: string)
    ensures Rep('0', 0 - |d|) + d == d
  {
  }

  /** The '0' flag has something to do when the field is wider than its text. */
  lemma PaddedOrNot(s: string, d: string, width: nat, f: Flags)
    requires !f.precision && (s != "" ==> s[|s| - 1] != '0')
    ensures C11Justify(s, d, width, NoPrecision(f)) == C11Justify(s, d, width, f)
            <==> f.left || !f.zeropad || width <= |s| + |d|
  {
    hide Rep;
    var pad := width - |s| - |d|;
    if !f.left && f.zeropad {
      if pad > 0 { PaddingShows(s, d, pad); } else { NothingPadded(s, d, pad); }
    }
  }

  lemma PaddingShows(s: string, d: string, pad: nat)
    requires pad > 0 && (s != "" ==> s[|s| - 1] != '0')
    ensures s + (Rep('0', pad) + d) != Rep(' ', pad) + (s + d)
  {
    var zeros, spaces := s + (Rep('0', pad) + d), Rep(' ', pad) + (s + d);
    assert zeros[|s| + pad - 1] == (Rep('0', pad) + d)[pad - 1] == '0';
    assert spaces[|s| + pad - 1] == if s == "" then ' ' else s[|s| - 1];
  }

  lemma NothingPadded(s: string, d: string, pad: int)
    requires pad <= 0
    ensures s + (Rep('0', pad) + d) == Rep(' ', pad) + (s + d)
  {
  }

  /** Neither sign nor spaces show a 0. */
  lemma NoDigitShown(s: string, d: string, width: nat, f: Flags)
    requires d == "0" && '0' !in s && !f.precision
    ensures C11Justify(s, "", width, NoPrecision(f)) != C11Justify(s, d, width, f)
  {
    var blank, shown := C11Justify(s, "", width, NoPrecision(f)), C11Justify(s, d, width, f);
    assert '0' !in blank;
    var at := if f.left then |s| else |shown| - 1;
    assert shown[at] == '0';
  }

  /** With '#', too. */
  lemma NegativeHash(v: u64, base: nat, width: nat, f: Flags)
    requires HashCall(base, 0, f) && !f.precision
    ensures Field(v, false, base, 0, width, NoPrecision(f)) == C11HashField(v, base, 0, width, f)
            <==> v != 0 && (f.left || !f.zeropad ||
                            width <= |Digits(v, base, f.upper)| + if base == 16 then 2 else 1)
  {
    hide Field, C11HashField, Digits, C11Justify, NtoaDigits, HashFits;
    var g, d := NoPrecision(f), Digits(v, base, f.upper);
    if v > 0 {
      HashMeetsC11(v, base, 0, width, g);
      NoZerosFit(|NtoaDigits(v, base, g)|, base, width, g);
      NegativeHashFields(v, base, width, f);
      PaddedOrNot(if base == 16 then HexMark(f) else "", if base == 16 then d else "0" + d, width, f);
    } else {
      BlankZero(base, width, g);
      ZeroInHash(base, width, f);
    }
  }

  lemma NoZerosFit(n: nat, base: nat, width: nat, f: Flags)
    requires HashCall(base, 0, f) && f.precision
    ensures HashFits(n, base, 0, width, f)
  {
  }

  lemma NegativeHashFields(v: u64, base: nat, width: nat, f: Flags)
    requires HashCall(base, 0, f) && !f.precision && v > 0
    ensures var g, d := NoPrecision(f), Digits(v, base, f.upper);
      var s, t := if base == 16 then HexMark(f) else "", if base == 16 then d else "0" + d;
      && C11HashField(v, base, 0, width, g) == C11Justify(s, t, width, g)
      && C11HashField(v, base, 0, width, f) == C11Justify(s, t, width, f)
  {
    hide Digits, C11Justify;
    NoZeros(Digits(v, base, f.upper));
    hide NtoaDigits;
    NtoaDigitsAre(v, base, f);
    LeadingNotZero(v, base, f);
  }

  lemma BlankZero(base: nat, width: nat, f: Flags)
    requires HashCall(base, 0, f) && f.precision
    ensures '0' !in Field(0, false, base, 0, width, f)
  {
  }

  lemma ZeroInHash(base: nat, width: nat, f: Flags)
    requires HashCall(base, 0, f) && !f.precision
    ensures '0' in C11HashField(0, base, 0, width, f)
  {
    ZeroIsOneDigit(base, f.upper);
    NoZeros("0");
    ZeroJustified(width, f);
  }

  lemma ZeroJustified(width: nat, f: Flags)
    ensures '0' in C11Justify("", "0", width, f)
  {
    var t := C11Justify("", "0", width, f);
    assert t[if f.left then 0 else |t| - 1] == '0';
  }
}
