/** printk.c: the formatting engine, proved to emit exactly what Directives.Render says. */
module Printk {
  import opened Words
  import opened Numerals
  import opened NumberField
  import opened Directives

  // ----- Where characters go ---------------------------------------------------------

  /** _out_buffer, _out_null and _out_char. */
  datatype Kind = ToBuffer | ToNull | ToTerminal

  /** What has been written: the memory buffer, and the characters the terminal has shown. */
  datatype Output = Output(mem: string, shown: string)

  function Put(kind: Kind, o: Output, c: char, idx: nat, maxlen: nat): (r: Output)
    ensures |r.mem| == |o.mem|
  {
    match kind
    case ToBuffer => if idx < maxlen && idx < |o.mem| then o.(mem := o.mem[idx := c]) else o
    case ToNull => o
    case ToTerminal => if c != '\0' then o.(shown := o.shown + [c]) else o
  }

  /** The effect of writing s from position idx on. */
  function Emit(kind: Kind, o: Output, s: string, idx: nat, maxlen: nat): (r: Output)
    ensures |r.mem| == |o.mem|
  {
    if s == "" then o
    else Put(kind, Emit(kind, o, s[..|s| - 1], idx, maxlen), s[|s| - 1], idx + |s| - 1, maxlen)
  }

  lemma EmitSnoc(kind: Kind, o: Output, s: string, c: char, idx: nat, maxlen: nat)
    ensures Emit(kind, o, s + [c], idx, maxlen) == Put(kind, Emit(kind, o, s, idx, maxlen), c, idx + |s|, maxlen)
  {
  }

  lemma EmitNothing(kind: Kind, o: Output, idx: nat, maxlen: nat)
    ensures Emit(kind, o, "", idx, maxlen) == o
  {
  }

  lemma EmitOne(kind: Kind, o: Output, c: char, idx: nat, maxlen: nat)
    ensures Emit(kind, o, [c], idx, maxlen) == Put(kind, o, c, idx, maxlen)
  {
  }

  lemma {:induction false} EmitConcat(kind: Kind, o: Output, s: string, t: string, idx: nat, maxlen: nat)
    ensures Emit(kind, o, s + t, idx, maxlen) == Emit(kind, Emit(kind, o, s, idx, maxlen), t, idx + |s|, maxlen)
    decreases |t|
  {
    if t == "" {
      assert s + t == s;
    } else {
      var t', c := t[..|t| - 1], t[|t| - 1];
      EmitConcat(kind, o, s, t', idx, maxlen);
      EmitSnoc(kind, o, s + t', c, idx, maxlen);
      assert s + t == (s + t') + [c];
    }
  }

  /** A buffer receives the part of s that fits below maxlen, and nothing else changes. */
  lemma {:induction false} EmitToBuffer(o: Output, s: string, idx: nat, maxlen: nat)
    ensures var r := Emit(ToBuffer, o, s, idx, maxlen);
      && r.shown == o.shown
      && forall k :: 0 <= k < |o.mem| ==>
           r.mem[k] == if idx <= k < idx + |s| && k < maxlen then s[k - idx] else o.mem[k]
    decreases |s|
  {
    if s != "" { EmitToBuffer(o, s[..|s| - 1], idx, maxlen); }
  }

  function NonZero(s: string): (r: string) {
    if s == "" then "" else NonZero(s[..|s| - 1]) + if s[|s| - 1] != '\0' then [s[|s| - 1]] else ""
  }

  /** The terminal shows s without its zero characters. */
  lemma {:induction false} EmitToTerminal(o: Output, s: string, idx: nat, maxlen: nat)
    ensures Emit(ToTerminal, o, s, idx, maxlen) == o.(shown := o.shown + NonZero(s))
    decreases |s|
  {
    if s != "" { EmitToTerminal(o, s[..|s| - 1], idx, maxlen); }
  }

  class Sink {
    const kind: Kind
    const buffer: array<char>
    var shown: string

    constructor (kind: Kind, buffer: array<char>)
      ensures this.kind == kind && this.buffer == buffer && shown == ""
    {
      this.kind := kind;
      this.buffer := buffer;
      shown := "";
    }

    function View(): (r: Output)
      reads this, buffer
    {
      Output(buffer[..], shown)
    }

    /** Positions below end that are also below maxlen exist in the buffer. */
    predicate Room(end: nat, maxlen: nat) {
      kind == ToBuffer ==> maxlen <= buffer.Length || end <= buffer.Length
    }

    /** A call of the output function. */
    method Out(c: char, idx: nat, maxlen: nat)
      requires Room(idx + 1, maxlen)
      modifies this, buffer
      ensures View() == Put(kind, old(View()), c, idx, maxlen)
    {
      match kind
      case ToBuffer => if idx < maxlen { buffer[idx] := c; }
      case ToNull =>
      case ToTerminal => if c != '\0' { shown := shown + [c]; }
    }

    /** The padding loops: spaces while from < width. */
    method Pad(from: nat, width: nat, idx: nat, maxlen: nat) returns (idx': nat)
      requires Room(idx + |Rep(' ', width - from)|, maxlen)
      modifies this, buffer
      ensures idx' == idx + |Rep(' ', width - from)|
      ensures View() == Emit(kind, old(View()), Rep(' ', width - from), idx, maxlen)
    {
      var l := from;
      idx' := idx;
      ghost var s := "";
      while l < width
        invariant from <= l && (from < width ==> l <= width) && (from >= width ==> l == from)
        invariant s == Rep(' ', l - from) && idx' == idx + |s|
        invariant View() == Emit(kind, old(View()), s, idx, maxlen)
      {
        EmitSnoc(kind, old(View()), s, ' ', idx, maxlen);
        Out(' ', idx', maxlen);
        s := s + [' '];
        idx', l := idx' + 1, l + 1;
      }
      assert s == Rep(' ', width - from);
    }

    /** The loop that puts the buffer out from its end. */
    method OutBackwards(buf: array<char>, len: nat, idx: nat, maxlen: nat) returns (idx': nat)
      requires len <= buf.Length && buf != buffer && Room(idx + len, maxlen)
      modifies this, buffer
      ensures idx' == idx + len
      ensures View() == Emit(kind, old(View()), Reverse(buf[..len]), idx, maxlen)
    {
      hide Emit, Put, Reverse;
      var n: nat := len;
      idx' := idx;
      ghost var b, s := buf[..len], "";
      EmitNothing(kind, View(), idx, maxlen);
      ReverseNothing(b);
      while n > 0
        invariant n <= len && b == buf[..len] && s == Reverse(b[n..]) && idx' == idx + |s|
        invariant View() == Emit(kind, old(View()), s, idx, maxlen)
      {
        n := n - 1;
        ReverseFrom(b, n);
        EmitSnoc(kind, old(View()), s, buf[n], idx, maxlen);
        Out(buf[n], idx', maxlen);
        s := s + [buf[n]];
        idx' := idx' + 1;
      }
    }

    static lemma ReverseNothing(b: string)
      ensures Reverse(b[|b|..]) == "" && b[0..] == b
    {
    }

    static lemma ReverseFrom(b: string, n: nat)
      requires n < |b|
      ensures Reverse(b[n..]) == Reverse(b[n + 1..]) + [b[n]]
    {
    }

    /** _out_rev. */
    method OutRev(buf: array<char>, len: nat, width: nat, f: Flags, idx: nat, maxlen: nat) returns (idx': nat)
      requires len <= buf.Length && buf != buffer
      requires Room(idx + |NumberField.OutRev(buf[..len], width, f)|, maxlen)
      modifies this, buffer
      ensures idx' == idx + |NumberField.OutRev(old(buf[..len]), width, f)|
      ensures View() == Emit(kind, old(View()), NumberField.OutRev(old(buf[..len]), width, f), idx, maxlen)
    {
      hide Emit, Reverse, Rep;
      ghost var o, b := View(), buf[..len];
      ghost var r, pad := Reverse(b), Rep(' ', width - len);
      idx' := idx;
      if !f.left && !f.zeropad {
        idx' := Pad(len, width, idx', maxlen);
        EmitConcat(kind, o, pad, r, idx, maxlen);
      }
      assert buf[..len] == b;
      idx' := OutBackwards(buf, len, idx', maxlen);
      if f.left {
        EmitConcat(kind, o, r, pad, idx, maxlen);
        idx' := Pad(idx' - idx, width, idx', maxlen);
      }
    }

    // ----- Integers ------------------------------------------------------------------

    /** The loops that fill the buffer up with zeros. */
    static method PadBuffer(buf: array<char>, len: nat, n: nat) returns (len': nat)
      requires buf.Length == BUFFER_SIZE && len <= BUFFER_SIZE
      modifies buf
      ensures len <= len' <= BUFFER_SIZE && buf[..len'] == PadZeros(old(buf[..len]), n)
    {
      len' := len;
      ghost var r := buf[..len];
      while len' < n && len' < BUFFER_SIZE
        invariant len <= len' <= BUFFER_SIZE && (len < len' ==> len' <= n)
        invariant buf[..len'] == r + Rep('0', len' - len)
      {
        buf[len'] := '0';
        len' := len' + 1;
      }
    }

    /** One more character, if the buffer has room. */
    static method Append(buf: array<char>, len: nat, c: char) returns (len': nat)
      requires buf.Length == BUFFER_SIZE && len <= BUFFER_SIZE
      modifies buf
      ensures len <= len' <= BUFFER_SIZE && buf[..len'] == AppendIfRoom(old(buf[..len]), c)
    {
      len' := len;
      if len < BUFFER_SIZE {
        buf[len] := c;
        len' := len + 1;
      }
    }

    /** The '#' part of _ntoa_format. */
    static method Hash(buf: array<char>, len: nat, base: nat, prec: nat, width: nat, f: Flags) returns (len': nat)
      requires buf.Length == BUFFER_SIZE && len <= BUFFER_SIZE
      modifies buf
      ensures len' <= BUFFER_SIZE && buf[..len'] == HashPrefix(old(buf[..len]), base, prec, width, f)
    {
      len' := len;
      if f.hash {
        if !f.precision && len' > 0 && (len' == prec || len' == width) {
          len' := len' - 1;
          if len' > 0 && base == 16 {
            len' := len' - 1;
          }
        }
        assert buf[..len'] == old(buf[..len])[..len - HashTakesBack(len, base, prec, width, f)];
        if base == 16 && !f.upper && len' < BUFFER_SIZE {
          len' := Append(buf, len', 'x');
        } else if base == 16 && f.upper && len' < BUFFER_SIZE {
          len' := Append(buf, len', 'X');
        } else if base == 2 && len' < BUFFER_SIZE {
          len' := Append(buf, len', 'b');
        }
        len' := Append(buf, len', '0');
      }
    }

    /** The part of _ntoa_format that writes into the 32-byte buffer. */
    static method FillBuffer(buf: array<char>, len: nat, neg: bool, base: nat, prec: nat, width: nat, f: Flags)
      returns (len': nat, width': nat)
      requires buf.Length == BUFFER_SIZE && len <= BUFFER_SIZE
      modifies buf
      ensures width' == PadWidth(neg, width, f) && len' <= BUFFER_SIZE
      ensures buf[..len'] == AppendSign(HashPrefix(LeadingZeros(old(buf[..len]), neg, prec, width, f),
                                                   base, prec, width', f), neg, f)
    {
      len', width' := len, width;
      if !f.left {
        if width' > 0 && f.zeropad && (neg || f.plus || f.space) {
          width' := width' - 1;
        }
        len' := PadBuffer(buf, len', prec);
        if f.zeropad {
          len' := PadBuffer(buf, len', width');
        }
      }
      len' := Hash(buf, len', base, prec, width', f);
      if len' < BUFFER_SIZE {
        if neg {
          len' := Append(buf, len', '-');
        } else if f.plus {
          len' := Append(buf, len', '+');
        } else if f.space {
          len' := Append(buf, len', ' ');
        }
      }
    }

    /** The digit loop of _ntoa_long and _ntoa_long_long. */
    static method DigitLoop(buf: array<char>, v: u64, base: nat, f: Flags) returns (len: nat)
      requires buf.Length == BUFFER_SIZE && 2 <= base <= 16
      modifies buf
      ensures len <= BUFFER_SIZE && buf[..len] == NtoaDigits(v, base, f)
    {
      hide RevDigits;
      len := 0;
      var value: nat := v;
      if !f.precision || value != 0 {
        ghost var all := RevDigits(v, base, f.upper, BUFFER_SIZE);
        var more := true;
        while more
          invariant len <= BUFFER_SIZE
          invariant more ==> len < BUFFER_SIZE && buf[..len] + RevDigits(value, base, f.upper, BUFFER_SIZE - len) == all
          invariant !more ==> buf[..len] == all
          decreases BUFFER_SIZE - len, more
        {
          ghost var before := buf[..len];
          RevDigitsStep(value, base, f.upper, BUFFER_SIZE - len);
          var digit := value % base;
          buf[len] := DigitChar(digit, f.upper);
          len := len + 1;
          value := value / base;
          assert buf[..len] == before + [DigitChar(digit, f.upper)];
          more := value != 0 && len < BUFFER_SIZE;
        }
      }
    }

    /** _ntoa_long and _ntoa_long_long, which differ only in the type of value. */
    method Ntoa(value: u64, neg: bool, base: nat, prec: nat, width: nat, flags: Flags, idx: nat, maxlen: nat)
      returns (idx': nat)
      requires 2 <= base <= 16 && Room(idx + |Field(value, neg, base, prec, width, flags)|, maxlen)
      modifies this, buffer
      ensures idx' == idx + |Field(value, neg, base, prec, width, flags)|
      ensures View() == Emit(kind, old(View()), Field(value, neg, base, prec, width, flags), idx, maxlen)
    {
      hide NtoaDigits, LeadingZeros, HashPrefix, AppendSign, PadWidth, NumberField.OutRev, Emit, Put, Field;
      FieldWithoutHash(value, neg, base, prec, width, flags);
      var buf := new char[BUFFER_SIZE];
      var f := if value == 0 then flags.(hash := false) else flags;
      var len := DigitLoop(buf, value, base, f);
      var w;
      len, w := FillBuffer(buf, len, neg, base, prec, width, f);
      idx' := OutRev(buf, len, w, f, idx, maxlen);
    }

    // ----- Scanning ------------------------------------------------------------------

    static method FlagLoop(fmt: string, i: nat) returns (f: Flags, j: nat)
      requires i <= |fmt|
      ensures i <= j <= |fmt| && (f, fmt[j..]) == ScanFlags(fmt[i..], NO_FLAGS)
    {
      f, j := NO_FLAGS, i;
      var more := true;
      while more
        invariant i <= j <= |fmt|
        invariant ScanFlags(fmt[j..], f) == ScanFlags(fmt[i..], NO_FLAGS)
        invariant !more ==> j == |fmt| || !IsFlag(fmt[j])
        decreases |fmt| - j, more
      {
        more := j < |fmt| && IsFlag(fmt[j]);
        if more {
          f := WithFlag(f, fmt[j]);
          j := j + 1;
        }
      }
    }

    /** _atoi. */
    static method AtoiLoop(fmt: string, i: nat) returns (n: u32, j: nat)
      requires i <= |fmt|
      ensures i <= j <= |fmt| && (n, fmt[j..]) == ScanNumber(fmt[i..], 0)
    {
      n, j := 0, i;
      while j < |fmt| && IsDigit(fmt[j])
        invariant i <= j <= |fmt| && ScanNumber(fmt[j..], n) == ScanNumber(fmt[i..], 0)
      {
        n := (n * 10 + (fmt[j] as int - '0' as int)) % TWO32;
        j := j + 1;
      }
    }

    /** _strnlen_s, for maxsize as the caller passes it: the precision, or (size_t)-1 for 0. */
    static method StrnlenS(s: string, precision: nat) returns (l: u32)
      ensures l == TextLength(s, precision)
    {
      var n := 0;
      while n < |s| && (precision == 0 || n < precision)
        invariant n <= |s| && (precision > 0 ==> n <= precision)
      {
        n := n + 1;
      }
      l := n % TWO32;
    }

    // ----- Directives ----------------------------------------------------------------

    /** %c. */
    method OutChar(c: char, width: nat, f: Flags, idx: nat, maxlen: nat) returns (idx': nat)
      requires Room(idx + |Justify([c], 1, width, f)|, maxlen)
      modifies this, buffer
      ensures idx' == idx + |Justify([c], 1, width, f)|
      ensures View() == Emit(kind, old(View()), Justify([c], 1, width, f), idx, maxlen)
    {
      hide Emit, Rep;
      ghost var o, pad := View(), Rep(' ', width - 1);
      idx' := idx;
      if !f.left {
        idx' := Pad(1, width, idx', maxlen);
        EmitConcat(kind, o, pad, [c], idx, maxlen);
      }
      EmitOne(kind, View(), c, idx', maxlen);
      Out(c, idx', maxlen);
      idx' := idx' + 1;
      if f.left {
        EmitConcat(kind, o, [c], pad, idx, maxlen);
        idx' := Pad(1, width, idx', maxlen);
      }
    }

    /** The characters of a string, at most prec of them if a precision was given. */
    method OutText(s: string, limited: bool, prec: nat, idx: nat, maxlen: nat) returns (idx': nat)
      requires Room(idx + |if limited && |s| > prec then s[..prec] else s|, maxlen)
      modifies this, buffer
      ensures idx' == idx + |if limited && |s| > prec then s[..prec] else s|
      ensures View() == Emit(kind, old(View()), if limited && |s| > prec then s[..prec] else s, idx, maxlen)
    {
      hide Emit;
      EmitNothing(kind, View(), idx, maxlen);
      var p: nat, left: nat := 0, prec;
      idx' := idx;
      while p < |s| && (!limited || left > 0)
        invariant p <= |s| && (limited ==> left + p == prec) && idx' == idx + p
        invariant View() == Emit(kind, old(View()), s[..p], idx, maxlen)
      {
        assert s[..p + 1] == s[..p] + [s[p]];
        EmitSnoc(kind, old(View()), s[..p], s[p], idx, maxlen);
        Out(s[p], idx', maxlen);
        if limited { left := left - 1; }
        idx', p := idx' + 1, p + 1;
      }
      assert s[..p] == if limited && |s| > prec then s[..prec] else s;
    }

    /** %s. */
    method OutString(s: string, width: u32, prec: u32, f: Flags, idx: nat, maxlen: nat) returns (idx': nat)
      requires Room(idx + |StringText(s, f, width, prec)|, maxlen)
      modifies this, buffer
      ensures idx' == idx + |StringText(s, f, width, prec)|
      ensures View() == Emit(kind, old(View()), StringText(s, f, width, prec), idx, maxlen)
    {
      hide Emit, Rep;
      ghost var o, text := View(), if f.precision && |s| > prec then s[..prec] else s;
      var l := StrnlenS(s, prec);
      if f.precision {
        l := if l < prec then l else prec;
      }
      idx' := idx;
      if !f.left {
        EmitConcat(kind, o, Rep(' ', width - l), text, idx, maxlen);
        idx' := Pad(l, width, idx', maxlen);
      }
      idx' := OutText(s, f.precision, prec, idx', maxlen);
      if f.left {
        EmitConcat(kind, o, text, Rep(' ', width - l), idx, maxlen);
        idx' := Pad(l, width, idx', maxlen);
      }
    }

    /** va_arg. */
    static method NextWord(args: seq<Arg>, k: nat) returns (w: u64, k': nat)
      requires k <= |args|
      ensures k <= k' <= |args| && w == WordArg(args[k..]) && args[k'..] == Rest(args[k..])
    {
      w := if k < |args| && args[k].Word? then args[k].w else 0;
      k' := if k < |args| then k + 1 else k;
    }

    static method NextText(args: seq<Arg>, k: nat) returns (s: string, k': nat)
      requires k <= |args|
      ensures k <= k' <= |args| && s == TextArg(args[k..]) && args[k'..] == Rest(args[k..])
    {
      s := if k < |args| && args[k].Text? then args[k].s else "";
      k' := if k < |args| then k + 1 else k;
    }

    /** The width field, "42" or "*". */
    static method WidthField(fmt: string, i: nat, f: Flags, args: seq<Arg>, k: nat)
      returns (f': Flags, width: u32, j: nat, k': nat, ghost a: Amount)
      requires i <= |fmt| && k <= |args|
      ensures i <= j <= |fmt| && k <= k' <= |args| && (a, fmt[j..]) == ScanAmount(fmt[i..])
      ensures var w := Signed(WordArg(args[k..]), TWO32);
        && f' == (if a == Star && w < 0 then f.(left := true) else f)
        && width == (match a case Star => Abs(w) case Absent => 0 case Given(n) => n)
        && args[k'..] == if a == Star then Rest(args[k..]) else args[k..]
    {
      f', width, j, k', a := f, 0, i, k, ScanAmount(fmt[i..]).0;
      if i < |fmt| && IsDigit(fmt[i]) {
        width, j := AtoiLoop(fmt, i);
      } else if i < |fmt| && fmt[i] == '*' {
        var word;
        word, k' := NextWord(args, k);
        var w := Signed(word, TWO32);
        if w < 0 {
          f' := f'.(left := true);
          width := -w;
        } else {
          width := w;
        }
        j := i + 1;
      }
    }

    /** The precision field, ".", ".7" or ".*". */
    static method PrecisionField(fmt: string, i: nat, args: seq<Arg>, k: nat)
      returns (given: bool, prec: u32, j: nat, k': nat, ghost a: Amount)
      requires i <= |fmt| && k <= |args|
      ensures i <= j <= |fmt| && k <= k' <= |args| && (a, fmt[j..]) == ScanPrecision(fmt[i..])
      ensures var v := Signed(WordArg(args[k..]), TWO32);
        && given == (a != Absent)
        && prec == (match a case Star => (if v > 0 then v else 0) case Absent => 0 case Given(n) => n)
        && args[k'..] == if a == Star then Rest(args[k..]) else args[k..]
    {
      given, prec, j, k', a := false, 0, i, k, ScanPrecision(fmt[i..]).0;
      if i < |fmt| && fmt[i] == '.' {
        given, j := true, i + 1;
        assert fmt[i..][1..] == fmt[i + 1..];
        if j < |fmt| && IsDigit(fmt[j]) {
          prec, j := AtoiLoop(fmt, j);
        } else if j < |fmt| && fmt[j] == '*' {
          var word;
          word, k' := NextWord(args, k);
          var v := Signed(word, TWO32);
          prec := if v > 0 then v else 0;
          j := j + 1;
        }
      }
    }

    /** The length field. */
    static method LengthField(fmt: string, i: nat, f: Flags) returns (f': Flags, j: nat)
      requires i <= |fmt|
      ensures i <= j <= |fmt| && (f', fmt[j..]) == ScanLength(fmt[i..], f)
    {
      hide WithLength, LengthOf;
      LengthAt(fmt, i);
      PlainLength(f);
      f', j := f, i;
      if i < |fmt| {
        if fmt[i] == 'l' {
          f', j := WithLength(Long, f), i + 1;
          if j < |fmt| && fmt[j] == 'l' { f', j := WithLength(LongLong, f), j + 1; }
        } else if fmt[i] == 'h' {
          f', j := WithLength(Short, f), i + 1;
          if j < |fmt| && fmt[j] == 'h' { f', j := WithLength(Char, f), j + 1; }
        } else if fmt[i] == 't' || fmt[i] == 'j' || fmt[i] == 'z' {
          f', j := WithLength(Long, f), i + 1;
        }
      }
    }

    static lemma PlainLength(f: Flags)
      ensures WithLength(Plain, f) == f
    {
    }

    static function LengthAhead(fmt: string, i: nat): (r: (Length, nat))
      requires i <= |fmt|
    {
      LengthChars(if i < |fmt| then fmt[i] else '\0', if i + 1 < |fmt| then fmt[i + 1] else '\0')
    }

    static lemma LengthAt(fmt: string, i: nat)
      requires i <= |fmt|
      ensures LengthOf(fmt[i..]) == LengthAhead(fmt, i) && i + LengthOf(fmt[i..]).1 <= |fmt|
      ensures fmt[i..][LengthOf(fmt[i..]).1..] == fmt[i + LengthOf(fmt[i..]).1..]
    {
    }

    /** Everything between '%' and the conversion character. */
    static method ScanDirective(fmt: string, i: nat, args: seq<Arg>, k: nat)
      returns (f: Flags, width: u32, prec: u32, j: nat, k': nat)
      requires i <= |fmt| && k <= |args| && Parse(fmt[i..]).0.conv != '\0'
      ensures i <= j < |fmt| && k <= k' <= |args|
      ensures var (p, rest) := Parse(fmt[i..]);
        p.conv == fmt[j] && rest == fmt[j + 1..] && (f, width, prec, args[k'..]) == Resolve(p, args[k..])
    {
      hide *;
      var f0, f1, given, i1, i2, i3, k1;
      ghost var aw, ap;
      f0, i1 := FlagLoop(fmt, i);
      f1, width, i2, k1, aw := WidthField(fmt, i1, f0, args, k);
      given, prec, i3, k', ap := PrecisionField(fmt, i2, args, k1);
      f, j := LengthField(fmt, i3, f1.(precision := given));
      ParseSteps(fmt[i..], f0, fmt[i1..], aw, fmt[i2..], ap, fmt[i3..], args[k..],
                 f1, width, prec, f, fmt[j..], args[k1..], args[k'..]);
      AtSuffix(fmt, j);
    }

    static lemma AtSuffix(fmt: string, j: nat)
      requires j <= |fmt|
      ensures At(fmt[j..]) == (if j < |fmt| then fmt[j] else '\0') && (j < |fmt| ==> fmt[j..][1..] == fmt[j + 1..])
      ensures fmt[j..] == "" <==> j == |fmt|
    {
    }

    /** The steps of the scan put together. */
    static lemma ParseSteps(s: string, f0: Flags, s1: string, aw: Amount, s2: string, ap: Amount, s3: string,
                            args: seq<Arg>, f1: Flags, width: u32, prec: u32, f: Flags, s4: string,
                            args1: seq<Arg>, args2: seq<Arg>)
      requires (f0, s1) == ScanFlags(s, NO_FLAGS) && (aw, s2) == ScanAmount(s1) && (ap, s3) == ScanPrecision(s2)
      requires var w := Signed(WordArg(args), TWO32);
        && f1 == (if aw == Star && w < 0 then f0.(left := true) else f0)
        && width == (match aw case Star => Abs(w) case Absent => 0 case Given(n) => n)
        && args1 == if aw == Star then Rest(args) else args
      requires var v := Signed(WordArg(args1), TWO32);
        && prec == (match ap case Star => (if v > 0 then v else 0) case Absent => 0 case Given(n) => n)
        && args2 == if ap == Star then Rest(args1) else args1
      requires (f, s4) == ScanLength(s3, f1.(precision := ap != Absent))
      ensures var (p, rest) := Parse(s);
        && p.conv == At(s4) && rest == (if s4 == "" then s4 else s4[1..])
        && (f, width, prec, args2) == Resolve(p, args)
    {
      hide ScanFlags, ScanAmount, ScanPrecision, ScanLength, Signed, WordArg, Rest;
      var f2, toLeft := f0.(precision := ap != Absent), aw == Star && Signed(WordArg(args), TWO32) < 0;
      LeftThenPrecision(f0, toLeft, ap != Absent);
      LengthKeepsLeft(s3, f2, toLeft);
      hide ScanLength;
      assert Parse(s) == (Spec(ScanLength(s3, f2).0, aw, ap, At(s4)), if s4 == "" then s4 else s4[1..]);
    }

    static lemma LeftThenPrecision(f: Flags, left: bool, given: bool)
      ensures (if left then f.(left := true) else f).(precision := given)
           == (if left then f.(precision := given).(left := true) else f.(precision := given))
    {
    }

    static lemma LengthKeepsLeft(s: string, f: Flags, left: bool)
      ensures var g := if left then f.(left := true) else f;
        ScanLength(s, g) == (if left then ScanLength(s, f).0.(left := true) else ScanLength(s, f).0, ScanLength(s, f).1)
    {
    }

    /** d, i, u, x, X, o and b. */
    method OutInteger(c: char, w: u64, width: u32, prec: u32, flags: Flags, idx: nat, maxlen: nat) returns (idx': nat)
      requires IsInteger(c) && Room(idx + |IntegerText(c, w, flags, width, prec)|, maxlen)
      modifies this, buffer
      ensures idx' == idx + |IntegerText(c, w, flags, width, prec)|
      ensures View() == Emit(kind, old(View()), IntegerText(c, w, flags, width, prec), idx, maxlen)
    {
      hide Field, Emit, Signed, Base, IntegerFlags;
      SignedBound(w, Modulus(flags));
      var base, f := Base(c), IntegerFlags(c, flags);
      var m := if flags.ll || flags.l then TWO64 else if flags.hh then 0x100 else if flags.h then 0x1_0000 else TWO32;
      if c == 'i' || c == 'd' {
        var v := Signed(w, m);
        idx' := Ntoa(if v > 0 then v else -v, v < 0, base, prec, width, f, idx, maxlen);
      } else {
        idx' := Ntoa(w % m, false, base, prec, width, f, idx, maxlen);
      }
    }

    /** The conversion itself, once width and precision are known. */
    method OutConversion(c: char, f: Flags, width: u32, prec: u32, args: seq<Arg>, k: nat, idx: nat, maxlen: nat,
                         ghost p: Spec, ghost all: seq<Arg>)
      returns (idx': nat, k': nat)
      requires k <= |args| && p.conv == c && (f, width, prec, args[k..]) == Resolve(p, all)
      requires Room(idx + |Convert(p, all).0|, maxlen)
      modifies this, buffer
      ensures k <= k' <= |args| && args[k'..] == Convert(p, all).1
      ensures idx' == idx + |Convert(p, all).0|
      ensures View() == Emit(kind, old(View()), Convert(p, all).0, idx, maxlen)
    {
      hide Resolve, Field, IntegerText, Justify, StringText, Emit;
      k' := k;
      if IsInteger(c) {
        var w;
        w, k' := NextWord(args, k);
        idx' := OutInteger(c, w, width, prec, f, idx, maxlen);
      } else if c == 'c' {
        var w;
        w, k' := NextWord(args, k);
        idx' := OutChar((w % 0x100) as char, width, f, idx, maxlen);
      } else if c == 's' {
        var s;
        s, k' := NextText(args, k);
        idx' := OutString(s, width, prec, f, idx, maxlen);
      } else if c == 'p' {
        var w;
        w, k' := NextWord(args, k);
        idx' := Ntoa(w, false, 16, prec, 16, f.(zeropad := true, upper := true), idx, maxlen);
      } else {
        EmitOne(kind, View(), c, idx, maxlen);
        Out(c, idx, maxlen);
        idx' := idx + 1;
      }
    }

    /** One directive, from behind its '%'. */
    method OutDirective(fmt: string, i: nat, args: seq<Arg>, k: nat, idx: nat, maxlen: nat)
      returns (j: nat, k': nat, idx': nat)
      requires i <= |fmt| && k <= |args| && Parse(fmt[i..]).0.conv != '\0'
      requires Room(idx + |Convert(Parse(fmt[i..]).0, args[k..]).0|, maxlen)
      modifies this, buffer
      ensures i <= j <= |fmt| && k <= k' <= |args| && j > i
      ensures var (p, rest) := Parse(fmt[i..]);
        && fmt[j..] == rest && args[k'..] == Convert(p, args[k..]).1
        && idx' == idx + |Convert(p, args[k..]).0|
        && View() == Emit(kind, old(View()), Convert(p, args[k..]).0, idx, maxlen)
    {
      hide Parse, Convert, Resolve, Emit;
      ghost var all, p := args[k..], Parse(fmt[i..]).0;
      var f, width, prec;
      f, width, prec, j, k' := ScanDirective(fmt, i, args, k);
      idx', k' := OutConversion(fmt[j], f, width, prec, args, k', idx, maxlen, p, all);
      j := j + 1;
    }

    /** _vsnprintf: the rendering of the format, in order, then a terminating zero; the full
        length comes back as an int whatever the buffer took. */
    method vsnprintf(maxlen: u64, fmt: string, args: seq<Arg>) returns (ret: int)
      requires Closed(fmt) && Room(|Render(fmt, args)| + 1, maxlen)
      modifies this, buffer
      ensures ret == Signed(|Render(fmt, args)|, TWO32)
      ensures var full := Render(fmt, args);
        View() == Put(kind, Emit(kind, old(View()), full, 0, maxlen), '\0', TerminatorAt(|full|, maxlen), maxlen)
    {
      hide Parse, Convert, Emit, Render, Closed;
      ghost var o, full, done := View(), Render(fmt, args), "";
      var idx, i, k := 0, 0, 0;
      assert fmt[0..] == fmt && args[0..] == args && done + full == full;
      EmitNothing(kind, o, 0, maxlen);
      while i < |fmt|
        invariant i <= |fmt| && k <= |args| && Closed(fmt[i..])
        invariant done + Render(fmt[i..], args[k..]) == full && idx == |done|
        invariant View() == Emit(kind, o, done, 0, maxlen)
      {
        assert fmt[i..][1..] == fmt[i + 1..];
        if fmt[i] != '%' {
          RenderLiteral(fmt[i..], args[k..]);
          EmitSnoc(kind, o, done, fmt[i], 0, maxlen);
          Out(fmt[i], idx, maxlen);
          done := done + [fmt[i]];
          idx, i := idx + 1, i + 1;
        } else {
          RenderDirective(fmt[i..], args[k..]);
          ghost var text := Convert(Parse(fmt[i + 1..]).0, args[k..]).0;
          EmitConcat(kind, o, done, text, 0, maxlen);
          i, k, idx := OutDirective(fmt, i + 1, args, k, idx, maxlen);
          done := done + text;
        }
      }
      RenderNothing(args[k..]);
      assert fmt[i..] == "" && done + "" == done;
      Out('\0', if idx < maxlen then idx else (maxlen + TWO64 - 1) % TWO64, maxlen);
      ret := Signed(idx, TWO32);
    }
  }

  /** idx < maxlen ? idx : maxlen - 1U, in 64-bit arithmetic. */
  function TerminatorAt(n: nat, maxlen: u64): (r: nat) {
    if n < maxlen then n else (maxlen + TWO64 - 1) % TWO64
  }

  // ----- snprintf and printk ----------------------------------------------------------

  /** The room snprintf needs of its buffer: count bytes, or enough for all of the output. */
  predicate Fits(length: nat, full: nat, count: u64) { count <= length || full + 1 <= length }

  /** The contents of the buffer afterwards: as much of the output as fits, a zero, and
      whatever was there before. */
  function Truncated(was: string, full: string, count: u64): (r: string)
    requires Fits(|was|, |full|, count)
  {
    if count == 0 then was
    else
      var n := if |full| < count then |full| else count - 1;
      full[..n] + "\0" + was[n + 1..]
  }

  lemma EmitTruncates(was: string, full: string, count: u64)
    requires Fits(|was|, |full|, count)
    ensures var o := Output(was, "");
      Put(ToBuffer, Emit(ToBuffer, o, full, 0, count), '\0', TerminatorAt(|full|, count), count).mem
      == Truncated(was, full, count)
  {
    hide Emit, TerminatorAt, Truncated, Put;
    var o := Output(was, "");
    BufferTakes(o, full, count);
    TerminatorIs(|full|, count);
    PutInBuffer(Emit(ToBuffer, o, full, 0, count), TerminatorAt(|full|, count), count);
    if count > 0 {
      TerminatedText(Emit(ToBuffer, o, full, 0, count).mem, was, full, count);
    } else {
      NothingTruncated(was, full);
      SameText(Emit(ToBuffer, o, full, 0, count).mem, was);
    }
  }

  lemma BufferTakes(o: Output, s: string, maxlen: nat)
    ensures var mem := Emit(ToBuffer, o, s, 0, maxlen).mem;
      |mem| == |o.mem| &&
      forall k :: 0 <= k < |o.mem| ==> mem[k] == if k < |s| && k < maxlen then s[k] else o.mem[k]
  {
    hide Emit;
    EmitToBuffer(o, s, 0, maxlen);
  }

  lemma PutInBuffer(o: Output, idx: nat, maxlen: nat)
    ensures Put(ToBuffer, o, '\0', idx, maxlen).mem
         == if idx < maxlen && idx < |o.mem| then o.mem[idx := '\0'] else o.mem
  {
  }

  /** The zero goes behind what the buffer took. */
  lemma TerminatedText(mem: string, was: string, full: string, count: u64)
    requires Fits(|was|, |full|, count) && count > 0 && |mem| == |was|
    requires forall k :: 0 <= k < |was| ==> mem[k] == if k < |full| && k < count then full[k] else was[k]
    ensures var n := if |full| < count then |full| else count - 1;
      n < |was| && mem[n := '\0'] == Truncated(was, full, count)
  {
    hide Truncated;
    TruncatedAt(was, full, count);
    SameText(mem[if |full| < count then |full| else count - 1 := '\0'], Truncated(was, full, count));
  }

  lemma NothingTruncated(was: string, full: string)
    ensures Fits(|was|, |full|, 0) && Truncated(was, full, 0) == was
  {
  }

  lemma SameText(s: string, t: string)
    requires |s| == |t| && forall k :: 0 <= k < |s| ==> s[k] == t[k]
    ensures s == t
  {
  }

  lemma TerminatorIs(n: nat, count: u64)
    ensures count > 0 ==> TerminatorAt(n, count) == if n < count then n else count - 1
    ensures count == 0 ==> TerminatorAt(n, count) >= count
  {
  }

  /** Truncated, character by character. */
  lemma TruncatedAt(was: string, full: string, count: u64)
    requires Fits(|was|, |full|, count) && count > 0
    ensures var n := if |full| < count then |full| else count - 1;
      && |Truncated(was, full, count)| == |was|
      && forall k :: 0 <= k < |was| ==>
           Truncated(was, full, count)[k] == if k < n then full[k] else if k == n then '\0' else was[k]
  {
  }

  lemma {:induction false} EmitNowhere(o: Output, s: string, idx: nat, maxlen: nat)
    ensures Emit(ToNull, o, s, idx, maxlen) == o
    decreases |s|
  {
    if s != "" { EmitNowhere(o, s[..|s| - 1], idx, maxlen); }
  }

  /** snprintf: the first count - 1 characters of the output and a zero, nothing at or beyond
      count, and the full length as the result however much of it was stored. */
  method Snprintf(buffer: array?<char>, count: u64, fmt: string, args: seq<Arg>) returns (ret: int)
    requires Closed(fmt) && (buffer != null ==> Fits(buffer.Length, |Render(fmt, args)|, count))
    modifies buffer
    ensures ret == Signed(|Render(fmt, args)|, TWO32)
    ensures buffer != null ==> buffer[..] == Truncated(old(buffer[..]), Render(fmt, args), count)
  {
    if buffer == null {
      var nowhere := new char[0];
      var sink := new Sink(ToNull, nowhere);
      ret := sink.vsnprintf(count, fmt, args);
    } else {
      var sink := new Sink(ToBuffer, buffer);
      EmitTruncates(buffer[..], Render(fmt, args), count);
      hide *;
      ret := sink.vsnprintf(count, fmt, args);
    }
  }

  /** printk: the terminal shows the output, less its zero characters. */
  method PrintkTo(terminal: Sink, fmt: string, args: seq<Arg>) returns (ret: int)
    requires Closed(fmt) && terminal.kind == ToTerminal
    modifies terminal, terminal.buffer
    ensures ret == Signed(|Render(fmt, args)|, TWO32)
    ensures terminal.shown == old(terminal.shown) + NonZero(Render(fmt, args))
  {
    EmitToTerminal(terminal.View(), Render(fmt, args), 0, TWO64 - 1);
    ret := terminal.vsnprintf(TWO64 - 1, fmt, args);
  }
}
