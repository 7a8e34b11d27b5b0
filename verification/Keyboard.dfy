/** driver.c of the PS/2 keyboard: scancodes are decoded in the interrupt handler and pass
    through a ring buffer to a line editor. */
module Keyboard {
  import opened Words
  import opened Wrappers

  const BACKSPACE := '\U{8}'
  const KBD_BUF_SIZE := 65535

  // ----- Scancodes -------------------------------------------------------------------

  const NORMAL_ROW1 := "\0`1234567890-=\U{8}"
  const NORMAL_ROW2 := "\tqwertyuiop[]\n"
  const NORMAL_ROW3 := "\0asdfghjkl;'`\0"
  const NORMAL_ROW4 := "\\zxcvbnm,./\0"
  const CAPS_ROW1 := "\0`1234567890-=\U{8}"
  const CAPS_ROW2 := "\tQWERTYUIOP[]\n"
  const CAPS_ROW3 := "\0ASDFGHJKL;'\0\0"
  const CAPS_ROW4 := "\\ZXCVBNM,./\0"
  const SHIFTED_ROW1 := "\0~!@#$%^&*()_+\U{8}"
  const SHIFTED_ROW2 := "\tQWERTYUIOP{}\n"
  const SHIFTED_ROW3 := "\0ASDFGHJKL:\"`\0"
  const SHIFTED_ROW4 := "|ZXCVBNM<>?\0"
  const LAST_ROW := "*\0 "

  const NORMAL := NORMAL_ROW1 + NORMAL_ROW2 + NORMAL_ROW3 + NORMAL_ROW4 + LAST_ROW
  const CAPS := CAPS_ROW1 + CAPS_ROW2 + CAPS_ROW3 + CAPS_ROW4 + LAST_ROW
  const SHIFTED := SHIFTED_ROW1 + SHIFTED_ROW2 + SHIFTED_ROW3 + SHIFTED_ROW4 + LAST_ROW

  /** The layout tables end in zeros but for '-' at 79 and '+' at 83. */
  function Layout(table: string, sc: u8): (r: char) {
    if sc < |table| then table[sc] else if sc == 79 then '-' else if sc == 83 then '+' else '\0'
  }

  datatype Decoder = Decoder(extended: bool, shift: bool, caps: bool)

  /** KeyboardDriverMain up to the pushback: the new state, and the character or 0. */
  function Decode(d: Decoder, sc: u8): (r: (Decoder, char)) {
    if sc == 0xE0 then (d.(extended := true), '\0')
    else if d.extended then (d.(extended := false), '\0')
    else if sc >= 0x80 then (if sc == 0xAA || sc == 0xB6 then d.(shift := false) else d, '\0')
    else if sc == 0x2A || sc == 0x36 then (d.(shift := true), '\0')
    else if sc == 0x3A then (d.(caps := !d.caps), '\0')
    else if d.shift then (d, Layout(SHIFTED, sc))
    else if d.caps && 'a' <= Layout(NORMAL, sc) <= 'z' then (d, Layout(CAPS, sc))
    else (d, Layout(NORMAL, sc))
  }

  /** The characters a stream of scancodes stands for. */
  function Chars(d: Decoder, scs: seq<u8>): (r: string)
    decreases |scs|
  {
    if scs == [] then ""
    else
      var (d', c) := Decode(d, scs[0]);
      (if c == '\0' then "" else [c]) + Chars(d', scs[1..])
  }

  /** The decoder after a stream. */
  function After(d: Decoder, scs: seq<u8>): (r: Decoder)
    decreases |scs|
  {
    if scs == [] then d else After(Decode(d, scs[0]).0, scs[1..])
  }

  /** A stream can be cut anywhere: the decoder carries all that the rest depends on. */
  lemma {:induction false} CharsAppend(d: Decoder, scs: seq<u8>, more: seq<u8>)
    ensures Chars(d, scs + more) == Chars(d, scs) + Chars(After(d, scs), more)
    decreases |scs|
  {
    hide Decode;
    if scs == [] {
      assert scs + more == more && "" + Chars(d, more) == Chars(d, more);
    } else {
      assert (scs + more)[1..] == scs[1..] + more;
      CharsAppend(Decode(d, scs[0]).0, scs[1..], more);
    }
  }

  /** What no stream can show in its characters: the key after the prefix 0xE0, and the
      release of any key but shift. */
  lemma SilentKeys(d: Decoder, sc: u8, more: seq<u8>)
    requires !d.extended && sc != 0xE0
    ensures Chars(d, [0xE0, sc] + more) == Chars(d, more)
    ensures sc >= 0x80 && sc != 0xAA && sc != 0xB6 ==> Chars(d, [sc] + more) == Chars(d, more)
  {
  }

  predicate IsLetter(c: char) { 'a' <= c <= 'z' }

  function Upper(c: char): (r: char) {
    if IsLetter(c) then (c as int - 'a' as int + 'A' as int) as char else c
  }

  /** Three layouts agree about letters: the other two hold the capitals of the first. */
  predicate Letters(plain: string, caps: string, shifted: string) {
    && |caps| == |shifted| == |plain|
    && forall i :: 0 <= i < |plain| && IsLetter(plain[i]) ==> caps[i] == shifted[i] == Upper(plain[i])
  }

  lemma LettersConcat(p: string, c: string, s: string, p': string, c': string, s': string)
    requires Letters(p, c, s) && Letters(p', c', s')
    ensures Letters(p + p', c + c', s + s')
  {
  }

  lemma LetterRows()
    ensures Letters(NORMAL_ROW1, CAPS_ROW1, SHIFTED_ROW1)
    ensures Letters(NORMAL_ROW2, CAPS_ROW2, SHIFTED_ROW2)
    ensures Letters(NORMAL_ROW3, CAPS_ROW3, SHIFTED_ROW3)
    ensures Letters(NORMAL_ROW4, CAPS_ROW4, SHIFTED_ROW4)
    ensures Letters(LAST_ROW, LAST_ROW, LAST_ROW)
  {
  }

  lemma LetterTables()
    ensures Letters(NORMAL, CAPS, SHIFTED)
  {
    hide Letters, LAST_ROW;
    hide NORMAL_ROW1, NORMAL_ROW2, NORMAL_ROW3, NORMAL_ROW4;
    hide CAPS_ROW1, CAPS_ROW2, CAPS_ROW3, CAPS_ROW4;
    hide SHIFTED_ROW1, SHIFTED_ROW2, SHIFTED_ROW3, SHIFTED_ROW4;
    LetterRows();
    var n2, c2, s2 := NORMAL_ROW1 + NORMAL_ROW2, CAPS_ROW1 + CAPS_ROW2, SHIFTED_ROW1 + SHIFTED_ROW2;
    var n3, c3, s3 := n2 + NORMAL_ROW3, c2 + CAPS_ROW3, s2 + SHIFTED_ROW3;
    var n4, c4, s4 := n3 + NORMAL_ROW4, c3 + CAPS_ROW4, s3 + SHIFTED_ROW4;
    LettersConcat(NORMAL_ROW1, CAPS_ROW1, SHIFTED_ROW1, NORMAL_ROW2, CAPS_ROW2, SHIFTED_ROW2);
    LettersConcat(n2, c2, s2, NORMAL_ROW3, CAPS_ROW3, SHIFTED_ROW3);
    LettersConcat(n3, c3, s3, NORMAL_ROW4, CAPS_ROW4, SHIFTED_ROW4);
    LettersConcat(n4, c4, s4, LAST_ROW, LAST_ROW, LAST_ROW);
  }

  /** A letter key types its capital under shift, caps lock or both, and no other key feels
      caps lock. */
  lemma CapitalLetters(d: Decoder, sc: u8)
    requires !d.extended && sc < 0x80 && sc != 0x2A && sc != 0x36 && sc != 0x3A
    ensures var plain, typed := Layout(NORMAL, sc), Decode(d, sc).1;
      && (IsLetter(plain) ==> typed == if d.shift || d.caps then Upper(plain) else plain)
      && (!IsLetter(plain) ==> typed == Decode(d.(caps := false), sc).1)
  {
    LetterTables();
    hide NORMAL, CAPS, SHIFTED;
  }

  // ----- Modifiers -------------------------------------------------------------------

  predicate ShiftPressed(sc: u8) { sc == 0x2A || sc == 0x36 }

  predicate ShiftReleased(sc: u8) { sc == 0xAA || sc == 0xB6 }

  const CAPS_LOCK: u8 := 0x3A

  /** Outside the prefix, the two shift keys set and clear shift, caps lock turns caps over,
      and no other scancode changes either. */
  lemma OneKey(d: Decoder, sc: u8)
    requires !d.extended && sc != 0xE0
    ensures var d' := Decode(d, sc).0;
      && !d'.extended
      && d'.shift == (ShiftPressed(sc) || (d.shift && !ShiftReleased(sc)))
      && d'.caps == (if sc == CAPS_LOCK then !d.caps else d.caps)
  {
  }

  /** A key behind the prefix leaves no trace at all, and a repeated prefix counts once. */
  lemma PrefixedKey(d: Decoder, sc: u8, more: seq<u8>)
    requires !d.extended
    ensures sc != 0xE0 ==> After(d, [0xE0, sc] + more) == After(d, more)
    ensures sc == 0xE0 ==> After(d, [0xE0, sc] + more) == After(d, [0xE0] + more)
  {
    assert ([0xE0, sc] + more)[1..] == [sc] + more && ([sc] + more)[1..] == more;
    assert After(d, [0xE0, sc] + more) == After(Decode(Decode(d, 0xE0).0, sc).0, more);
    assert ([0xE0] + more)[1..] == more;
  }

  /** Shift key i is down at the end of the stream: pressed, and no release after it. */
  predicate Held(scs: seq<u8>, i: nat) {
    i < |scs| && ShiftPressed(scs[i]) && forall j :: i < j < |scs| ==> !ShiftReleased(scs[j])
  }

  /** Over a stream without prefixes, shift is on exactly when some press has no release after
      it, or it was on before and nothing released it. */
  lemma {:induction false} ShiftIsHeld(d: Decoder, scs: seq<u8>)
    requires !d.extended && 0xE0 !in scs
    ensures After(d, scs).shift <==>
      (exists i :: Held(scs, i)) || (d.shift && forall j :: 0 <= j < |scs| ==> !ShiftReleased(scs[j]))
    decreases |scs|
  {
    hide Decode, ShiftPressed, ShiftReleased;
    if scs != [] {
      OneKey(d, scs[0]);
      var d', rest := Decode(d, scs[0]).0, scs[1..];
      ShiftIsHeld(d', rest);
      forall i: nat | i < |rest| ensures Held(rest, i) <==> Held(scs, i + 1) {
        assert forall j :: i + 1 < j < |scs| ==> scs[j] == rest[j - 1];
        assert forall j :: i < j < |rest| ==> rest[j] == scs[j + 1];
      }
      HeldFirst(scs);
      if i: nat :| Held(scs, i) && i > 0 { assert Held(rest, i - 1); }
      if i: nat :| Held(rest, i) { assert Held(scs, i + 1); }
    }
  }

  lemma HeldFirst(scs: seq<u8>)
    requires scs != []
    ensures Held(scs, 0) <==>
      ShiftPressed(scs[0]) && forall j :: 0 <= j < |scs[1..]| ==> !ShiftReleased(scs[1..][j])
  {
    hide ShiftPressed, ShiftReleased;
    var rest := scs[1..];
    assert forall j :: 0 < j < |scs| ==> scs[j] == rest[j - 1];
    assert forall j :: 0 <= j < |rest| ==> rest[j] == scs[j + 1];
  }

  /** ... and caps lock is on after an odd number of its presses. */
  lemma {:induction false} CapsIsParity(d: Decoder, scs: seq<u8>)
    requires !d.extended && 0xE0 !in scs
    ensures After(d, scs).caps == (d.caps != (multiset(scs)[CAPS_LOCK] % 2 == 1))
    ensures !After(d, scs).extended
    decreases |scs|
  {
    hide Decode;
    if scs != [] {
      OneKey(d, scs[0]);
      CapsIsParity(Decode(d, scs[0]).0, scs[1..]);
      assert scs == [scs[0]] + scs[1..];
    }
  }

  // ----- Layouts ---------------------------------------------------------------------

  /** The keys in a row: the scancodes from first on carry these characters. */
  predicate RowAt(table: string, first: u8, keys: string) {
    first + |keys| <= |table| && table[first..first + |keys|] == keys
  }

  lemma RowInside(before: string, row: string, behind: string, first: u8, keys: string)
    requires |before| <= first && RowAt(row, first - |before|, keys)
    ensures RowAt(before + (row + behind), first, keys)
  {
    var k := first - |before|;
    assert (before + (row + behind))[first..first + |keys|] == row[k..k + |keys|];
  }

  /** Where the rows of the keyboard start. */
  lemma Rows()
    ensures RowAt(NORMAL, 0x02, "1234567890") && RowAt(SHIFTED, 0x02, "!@#$%^&*()")
    ensures RowAt(NORMAL, 0x10, "qwertyuiop") && RowAt(NORMAL, 0x1E, "asdfghjkl") && RowAt(NORMAL, 0x2C, "zxcvbnm")
  {
    DigitRows();
    PlainRows();
  }

  lemma DigitRows()
    ensures RowAt(NORMAL, 0x02, "1234567890") && RowAt(SHIFTED, 0x02, "!@#$%^&*()")
  {
    hide RowAt, NORMAL_ROW1, NORMAL_ROW2, NORMAL_ROW3, NORMAL_ROW4, LAST_ROW;
    hide SHIFTED_ROW1, SHIFTED_ROW2, SHIFTED_ROW3, SHIFTED_ROW4;
    DigitsInRows();
    RowInside("", NORMAL_ROW1, NORMAL_ROW2 + NORMAL_ROW3 + NORMAL_ROW4 + LAST_ROW, 2, "1234567890");
    RowInside("", SHIFTED_ROW1, SHIFTED_ROW2 + SHIFTED_ROW3 + SHIFTED_ROW4 + LAST_ROW, 2, "!@#$%^&*()");
    assert NORMAL == "" + (NORMAL_ROW1 + (NORMAL_ROW2 + NORMAL_ROW3 + NORMAL_ROW4 + LAST_ROW));
    assert SHIFTED == "" + (SHIFTED_ROW1 + (SHIFTED_ROW2 + SHIFTED_ROW3 + SHIFTED_ROW4 + LAST_ROW));
  }

  lemma DigitsInRows()
    ensures RowAt(NORMAL_ROW1, 2, "1234567890") && RowAt(SHIFTED_ROW1, 2, "!@#$%^&*()")
  {
  }

  lemma LettersInRows()
    ensures RowAt(NORMAL_ROW2, 1, "qwertyuiop") && RowAt(NORMAL_ROW3, 1, "asdfghjkl")
    ensures RowAt(NORMAL_ROW4, 1, "zxcvbnm")
    ensures |NORMAL_ROW1| == 15 && |NORMAL_ROW2| == 14 && |NORMAL_ROW3| == 14
  {
  }

  lemma PlainRows()
    ensures RowAt(NORMAL, 0x10, "qwertyuiop") && RowAt(NORMAL, 0x1E, "asdfghjkl") && RowAt(NORMAL, 0x2C, "zxcvbnm")
  {
    hide RowAt, NORMAL_ROW1, NORMAL_ROW2, NORMAL_ROW3, NORMAL_ROW4, LAST_ROW;
    LettersInRows();
    var r2, r3 := NORMAL_ROW1 + NORMAL_ROW2, NORMAL_ROW1 + NORMAL_ROW2 + NORMAL_ROW3;
    RowInside(NORMAL_ROW1, NORMAL_ROW2, NORMAL_ROW3 + NORMAL_ROW4 + LAST_ROW, 0x10, "qwertyuiop");
    RowInside(r2, NORMAL_ROW3, NORMAL_ROW4 + LAST_ROW, 0x1E, "asdfghjkl");
    RowInside(r3, NORMAL_ROW4, LAST_ROW, 0x2C, "zxcvbnm");
    assert NORMAL == NORMAL_ROW1 + (NORMAL_ROW2 + (NORMAL_ROW3 + NORMAL_ROW4 + LAST_ROW));
    assert NORMAL == r2 + (NORMAL_ROW3 + (NORMAL_ROW4 + LAST_ROW));
    assert NORMAL == r3 + (NORMAL_ROW4 + LAST_ROW);
  }

  /** The keys that edit and space are the same with and without shift, and beyond the space
      bar only the keypad's minus and plus type anything. */
  lemma EditingKeys(d: Decoder, sc: u8)
    requires !d.extended && sc < 0x80
    ensures sc == 0x0E ==> Decode(d, sc).1 == BACKSPACE
    ensures sc == 0x0F ==> Decode(d, sc).1 == '\t'
    ensures sc == 0x1C ==> Decode(d, sc).1 == '\n'
    ensures sc == 0x39 ==> Decode(d, sc).1 == ' '
    ensures sc > 0x39 ==> Decode(d, sc).1 == if sc == 79 then '-' else if sc == 83 then '+' else '\0'
  {
  }

  predicate Printable(c: char) { ' ' <= c <= '~' }

  /** Every printable character has a key, with shift or without. */
  lemma EveryCharacter(c: char)
    requires Printable(c)
    ensures exists sc: u8, shift: bool :: sc < 0x80 && Decode(Decoder(false, shift, false), sc).1 == c
  {
    PrintableInRows(c);
    if c in NORMAL { OnPlainLayout(c); } else { OnShiftedLayout(c); }
  }

  lemma PrintableInRows(c: char)
    requires Printable(c)
    ensures c in NORMAL || c in SHIFTED
  {
    assert IsLetter(c) ==> c in NORMAL_ROW2 || c in NORMAL_ROW3 || c in NORMAL_ROW4;
    assert 'A' <= c <= 'Z' ==> c in SHIFTED_ROW2 || c in SHIFTED_ROW3 || c in SHIFTED_ROW4;
    assert '0' <= c <= '9' ==> c in NORMAL_ROW1;
  }

  lemma OnPlainLayout(c: char)
    requires c != '\0' && c in NORMAL
    ensures exists sc: u8 :: sc < 0x80 && Decode(Decoder(false, false, false), sc).1 == c
  {
    var i :| 0 <= i < |NORMAL| && NORMAL[i] == c;
    assert |NORMAL| == 58 && Layout(NORMAL, i) == c;
    assert NORMAL[0x2A] == NORMAL[0x36] == '\0';
    assert Decode(Decoder(false, false, false), i).1 == c;
  }

  lemma OnShiftedLayout(c: char)
    requires c != '\0' && c in SHIFTED
    ensures exists sc: u8 :: sc < 0x80 && Decode(Decoder(false, true, false), sc).1 == c
  {
    var i :| 0 <= i < |SHIFTED| && SHIFTED[i] == c;
    assert |SHIFTED| == 58 && Layout(SHIFTED, i) == c;
    assert SHIFTED[0x2A] == SHIFTED[0x36] == '\0';
    assert Decode(Decoder(false, true, false), i).1 == c;
  }

  // ----- The ring --------------------------------------------------------------------

  /** Where kbd_getc is: between calls, or behind the read of its slot, or behind the move of
      tail with the character not counted yet. */
  datatype Reader = Idle | Holding(c: char) | Leaving

  /** served: cursor_read, the characters kbd_getc has counted. */
  datatype Ring = Ring(buf: string, head: nat, tail: nat, served: nat, reader: Reader)

  predicate Inv(r: Ring) {
    && |r.buf| == KBD_BUF_SIZE && r.head < KBD_BUF_SIZE && r.tail < KBD_BUF_SIZE
    && (r.reader.Holding? ==> r.head != r.tail && r.buf[r.tail] == r.reader.c)
  }

  function Count(r: Ring): (s: nat)
    requires r.head < KBD_BUF_SIZE && r.tail < KBD_BUF_SIZE
  {
    if r.head >= r.tail then r.head - r.tail else r.head + KBD_BUF_SIZE - r.tail
  }

  /** The characters waiting in the ring, oldest first. */
  function Contents(r: Ring): (s: string)
    requires Inv(r)
    ensures |s| == Count(r) && forall i :: 0 <= i < |s| ==> s[i] == r.buf[Around(r.tail + i, KBD_BUF_SIZE)]
  {
    seq(Count(r), i requires 0 <= i < Count(r) => r.buf[Around(r.tail + i, KBD_BUF_SIZE)])
  }

  predicate Full(r: Ring)
    requires r.head < KBD_BUF_SIZE
  {
    Around(r.head + 1, KBD_BUF_SIZE) == r.tail
  }

  /** KbdPushback drops backspaces until the first character has been counted. */
  predicate Dropped(r: Ring, c: char) { c == BACKSPACE && r.served == 0 }

  /** KbdPushback; a full ring is emptied. */
  function Push(r: Ring, c: char): (s: Ring)
    requires Inv(r)
  {
    if Dropped(r, c) then r
    else if !Full(r) then r.(buf := r.buf[r.head := c], head := Around(r.head + 1, KBD_BUF_SIZE))
    else r.(buf := seq(KBD_BUF_SIZE, _ => '\0'), head := 0, tail := 0, reader := Idle)
  }

  /** The three steps of kbd_getc: the slot is read, ... */
  function Read(r: Ring): (s: Ring)
    requires Inv(r) && r.head != r.tail
  {
    r.(reader := Holding(r.buf[r.tail]))
  }

  /** ... tail moves on, ... */
  function Advance(r: Ring): (s: Ring)
    requires Inv(r)
  {
    r.(tail := Around(r.tail + 1, KBD_BUF_SIZE), reader := Leaving)
  }

  /** ... and the character is counted. */
  function CountRead(r: Ring): (s: Ring) {
    r.(served := r.served + 1, reader := Idle)
  }

  /** What a push does to the ring: a dropped backspace leaves it alone, a push that finds room
      appends and leaves the slot at tail as it is, and a push that finds it full loses all. */
  lemma PushEffect(r: Ring, c: char)
    requires Inv(r)
    ensures Inv(Push(r, c))
    ensures Full(r) <==> |Contents(r)| == KBD_BUF_SIZE - 1
    ensures !Full(r) || Dropped(r, c) ==> Push(r, c).reader == r.reader
    ensures Push(r, c).served == r.served
    ensures Full(r) && !Dropped(r, c) ==> forall k :: 0 <= k < KBD_BUF_SIZE ==> Push(r, c).buf[k] == '\0'
    ensures Contents(Push(r, c)) == if Dropped(r, c) then Contents(r) else if Full(r) then "" else Contents(r) + [c]
  {
    if !Dropped(r, c) && !Full(r) { PushAppends(r, c); }
  }

  lemma PushAppends(r: Ring, c: char)
    requires Inv(r) && !Full(r) && !Dropped(r, c)
    ensures Inv(Push(r, c)) && Contents(Push(r, c)) == Contents(r) + [c]
  {
  }

  /** Moving on takes away the oldest character, which is the one read. */
  lemma AdvanceRemoves(r: Ring)
    requires Inv(r) && r.reader.Holding?
    ensures Inv(Advance(r)) && Contents(r) == [r.reader.c] + Contents(Advance(r))
  {
  }

  // ----- Every interleaving ----------------------------------------------------------

  /** What can happen next: an interrupt pushes, or the reader takes one of its three steps. */
  datatype Event = Pushed(c: char) | SlotRead | TailMoved | Counted

  /** No push finds the ring full. */
  predicate Possible(r: Ring, e: Event)
    requires Inv(r)
  {
    match e
    case Pushed(c) => Dropped(r, c) || !Full(r)
    case SlotRead => r.reader.Idle? && r.head != r.tail
    case TailMoved => r.reader.Holding?
    case Counted => r.reader.Leaving?
  }

  function Happen(r: Ring, e: Event): (r': Ring)
    requires Inv(r) && Possible(r, e)
    ensures Inv(r')
  {
    match e
    case Pushed(c) => PushEffect(r, c); Push(r, c)
    case SlotRead => Read(r)
    case TailMoved => AdvanceRemoves(r); Advance(r)
    case Counted => CountRead(r)
  }

  /** The character a step gets into the ring, and the one it gives to the caller. */
  function Gain(r: Ring, e: Event): (s: string) {
    if e.Pushed? && !Dropped(r, e.c) then [e.c] else ""
  }

  function Loss(r: Ring, e: Event): (s: string) {
    if e.TailMoved? && r.reader.Holding? then [r.reader.c] else ""
  }

  predicate Run(r: Ring, es: seq<Event>)
    requires Inv(r)
    decreases |es|
  {
    es == [] || (Possible(r, es[0]) && Run(Happen(r, es[0]), es[1..]))
  }

  function End(r: Ring, es: seq<Event>): (r': Ring)
    requires Inv(r) && Run(r, es)
    ensures Inv(r')
    decreases |es|
  {
    if es == [] then r else End(Happen(r, es[0]), es[1..])
  }

  /** The characters the interrupts got into the ring over a run ... */
  function Accepted(r: Ring, es: seq<Event>): (s: string)
    requires Inv(r) && Run(r, es)
    decreases |es|
  {
    if es == [] then "" else Gain(r, es[0]) + Accepted(Happen(r, es[0]), es[1..])
  }

  /** ... and those kbd_getc gave out. */
  function Delivered(r: Ring, es: seq<Event>): (s: string)
    requires Inv(r) && Run(r, es)
    decreases |es|
  {
    if es == [] then "" else Loss(r, es[0]) + Delivered(Happen(r, es[0]), es[1..])
  }

  lemma HappenBalances(r: Ring, e: Event)
    requires Inv(r) && Possible(r, e)
    ensures Contents(r) + Gain(r, e) == Loss(r, e) + Contents(Happen(r, e))
  {
    hide Contents, Push, Advance;
    match e
    case Pushed(c) => PushEffect(r, c);
    case SlotRead => SameContents(r, Read(r));
    case TailMoved => AdvanceRemoves(r);
    case Counted => SameContents(r, CountRead(r));
  }

  lemma SameContents(r: Ring, r': Ring)
    requires Inv(r) && Inv(r') && r'.buf == r.buf && r'.head == r.head && r'.tail == r.tail
    ensures Contents(r') == Contents(r)
  {
  }

  lemma Chain(a: string, gain: string, loss: string, b: string, more: string, out: string, left: string)
    requires a + gain == loss + b && b + more == out + left
    ensures a + (gain + more) == (loss + out) + left
  {
    assert a + (gain + more) == (a + gain) + more == loss + (b + more);
  }

  /** First in, first out, however pushes fall between the reader's three steps: what was in
      the ring and what came in is what went out and what is left. */
  lemma {:induction false} Fifo(r: Ring, es: seq<Event>)
    requires Inv(r) && Run(r, es)
    ensures Contents(r) + Accepted(r, es) == Delivered(r, es) + Contents(End(r, es))
    decreases |es|
  {
    hide Contents, Happen, Gain, Loss, Possible, Inv;
    if es != [] {
      var r', rest := Happen(r, es[0]), es[1..];
      Fifo(r', rest);
      HappenBalances(r, es[0]);
      Chain(Contents(r), Gain(r, es[0]), Loss(r, es[0]), Contents(r'),
            Accepted(r', rest), Delivered(r', rest), Contents(End(r', rest)));
    }
  }

  function Typed(es: seq<Event>): (r: string) {
    if es == [] then "" else (if es[0].Pushed? then [es[0].c] else "") + Typed(es[1..])
  }

  /** A backspace comes in before the reader first counts a character. */
  predicate EarlyBackspace(es: seq<Event>) {
    es != [] && !es[0].Counted? && (es[0] == Pushed(BACKSPACE) || EarlyBackspace(es[1..]))
  }

  lemma Prefixed(a: string, x: string, b: string, y: string)
    requires a == b || (a == "" && |x| <= |y| && |b| == 1)
    ensures a + x == b + y <==> a == b && x == y
  {
    if a == b && a + x == b + y { assert x == (a + x)[|a|..] && y == (b + y)[|b|..]; }
  }

  /** Every character typed gets into the ring if and only if no backspace came in before the
      first character of all was counted. */
  lemma {:induction false} AcceptedIsTyped(r: Ring, es: seq<Event>)
    requires Inv(r) && Run(r, es)
    ensures |Accepted(r, es)| <= |Typed(es)|
    ensures Accepted(r, es) == Typed(es) <==> r.served > 0 || !EarlyBackspace(es)
    decreases |es|
  {
    hide Contents, Inv, Full;
    if es != [] {
      var r', rest := Happen(r, es[0]), es[1..];
      AcceptedIsTyped(r', rest);
      Prefixed(Gain(r, es[0]), Accepted(r', rest), if es[0].Pushed? then [es[0].c] else "", Typed(rest));
    }
  }

  // ----- The line editor -------------------------------------------------------------

  /** A line typed as s, after line has been typed already: backspace takes back the last
      character; newline, a zero or max characters end it. Gives the line and what is left
      of s, or None if s ends first or backspaces an empty line. */
  function Edit(s: string, line: string, max: nat): (r: Option<(string, string)>)
    decreases |s|
  {
    if |line| >= max then Some((line, s))
    else if s == "" then None
    else if s[0] == '\n' || s[0] == '\0' then Some((line, s[1..]))
    else if s[0] == BACKSPACE then (if line == "" then None else Edit(s[1..], line[..|line| - 1], max))
    else Edit(s[1..], line + [s[0]], max)
  }

  lemma EditStep(s: string, line: string, max: nat)
    requires |line| < max && Edit(s, line, max).Some?
    ensures s != ""
    ensures s[0] == '\n' || s[0] == '\0' ==> Edit(s, line, max) == Some((line, s[1..]))
    ensures s[0] == BACKSPACE ==> line != "" && Edit(s, line, max) == Edit(s[1..], line[..|line| - 1], max)
    ensures (s[0] != '\n' && s[0] != '\0' && s[0] != BACKSPACE ==>
             Edit(s, line, max) == Edit(s[1..], line + [s[0]], max))
  {
  }

  predicate Plain(s: string) { forall k :: 0 <= k < |s| ==> s[k] != '\n' && s[k] != '\0' && s[k] != BACKSPACE }

  /** An edited line holds plain characters only and fits. */
  lemma {:induction false} EditedLine(s: string, line: string, max: nat)
    requires Plain(line) && |line| <= max && Edit(s, line, max).Some?
    ensures Plain(Edit(s, line, max).value.0) && |Edit(s, line, max).value.0| <= max
    decreases |s|
  {
    if |line| < max && s != "" && s[0] != '\n' && s[0] != '\0' {
      if s[0] == BACKSPACE { EditedLine(s[1..], line[..|line| - 1], max); }
      else { EditedLine(s[1..], line + [s[0]], max); }
    }
  }

  /** Typing a character and taking it back, short of the end of the line, leaves no trace. */
  lemma TypeAndTakeBack(c: char, s: string, line: string, max: nat)
    requires Plain([c]) && |line| + 1 < max
    ensures Edit([c, BACKSPACE] + s, line, max) == Edit(s, line, max)
  {
  }

  /** With no backspace in sight the line is the text itself, up to the newline or the end
      of the buffer. */
  lemma {:induction false} EditPlain(text: string, s: string, line: string, max: nat)
    requires Plain(text) && |line| + |text| <= max
    ensures Edit(text + s, line, max) == Edit(s, line + text, max)
    decreases |text|
  {
    if text == "" {
      assert text + s == s && line + text == line;
    } else {
      assert (text + s)[1..] == text[1..] + s && line + text == (line + [text[0]]) + text[1..];
      EditPlain(text[1..], s, line + [text[0]], max);
    }
  }

  // ----- What can become of what is typed --------------------------------------------

  function WithoutBackspaces(s: string): (r: string) {
    if s == "" then "" else (if s[0] == BACKSPACE then "" else [s[0]]) + WithoutBackspaces(s[1..])
  }

  /** What gets into the ring of the text typed if i of its characters come in before the
      first character of all is counted; n characters have been counted already. */
  function Kept(n: nat, typed: string, i: nat): (r: string)
    requires i <= |typed|
  {
    if n > 0 then typed else WithoutBackspaces(typed[..i]) + typed[i..]
  }

  lemma {:induction false} WithoutBackspacesIs(s: string)
    ensures |WithoutBackspaces(s)| <= |s|
    ensures WithoutBackspaces(s) == s <==> BACKSPACE !in s
  {
    if s != "" {
      WithoutBackspacesIs(s[1..]);
      assert s == [s[0]] + s[1..];
      if s[0] != BACKSPACE { assert WithoutBackspaces(s)[1..] == WithoutBackspaces(s[1..]); }
    }
  }

  /** The text without the backspaces it starts with. */
  function WithoutLeading(s: string): (r: string)
    ensures r == "" || r[0] != BACKSPACE
  {
    if s != "" && s[0] == BACKSPACE then WithoutLeading(s[1..]) else s
  }

  /** What of the text typed timing can have a say in: before a first character is there to be
      read nothing can be counted, so that the backspaces it starts with are lost. */
  function Ahead(r: Ring, typed: string): (s: string)
    requires Inv(r)
  {
    if r.served == 0 && r.reader == Idle && Contents(r) == "" then WithoutLeading(typed) else typed
  }

  /** All of the text gets in exactly when no backspace in it comes too early. */
  lemma KeptIsAll(n: nat, typed: string, i: nat)
    requires i <= |typed|
    ensures Kept(n, typed, i) == typed <==> n > 0 || BACKSPACE !in typed[..i]
  {
    WithoutBackspacesIs(typed[..i]);
    assert typed == typed[..i] + typed[i..];
    if n == 0 && Kept(n, typed, i) == typed {
      assert WithoutBackspaces(typed[..i]) == typed[..i];
    }
  }

  /** When the characters ahead come in makes no difference to what gets in if and only if one
      has been counted already or there is no backspace among them. */
  lemma TimingMatters(n: nat, ahead: string)
    ensures (forall i :: 0 <= i <= |ahead| ==> Kept(n, ahead, i) == ahead) <==> n > 0 || BACKSPACE !in ahead
    ensures Kept(n, ahead, 0) == ahead
  {
    assert ahead[..|ahead|] == ahead;
    KeptIsAll(n, ahead, 0);
    forall i | 0 <= i <= |ahead|
      ensures Kept(n, ahead, i) == ahead <==> n > 0 || BACKSPACE !in ahead[..i]
    {
      KeptIsAll(n, ahead, i);
    }
  }

  lemma EditGoesOn(c: char, s: string, line: string, max: nat)
    requires |line| < max && (c == BACKSPACE ==> line != "")
    ensures (Edit([c] + s, line, max) ==
             if c == '\n' || c == '\0' then Some((line, s)) else Edit(s, Edited(line, c), max))
  {
    assert ([c] + s)[1..] == s;
  }

  /** The same four keys, a b backspace enter, typed on a machine just started: the line is
      "ab" if they all come in before kbd_getc has counted, "a" if none does. */
  lemma SameKeysTwoLines()
    ensures Edit(Kept(0, "ab\U{8}\n", 4), "", 80) == Some(("ab", ""))
    ensures Edit(Kept(0, "ab\U{8}\n", 0), "", 80) == Some(("a", ""))
  {
    KeysKept();
    KeysEdited();
  }

  lemma KeysKept()
    ensures Kept(0, "ab\U{8}\n", 4) == "ab\n" && Kept(0, "ab\U{8}\n", 0) == "ab\U{8}\n"
  {
    var keys := "ab\U{8}\n";
    var k1, k2, k3 := keys[1..], keys[2..], keys[3..];
    assert keys[..4] == keys && keys[4..] == "" && keys[..0] == "" && keys[0..] == keys;
    assert k1[1..] == k2 && k2[1..] == k3 && k3[1..] == "";
    assert WithoutBackspaces(k2) == WithoutBackspaces(k3) == "\n" && WithoutBackspaces(k1) == "b\n";
  }

  lemma KeysEdited()
    ensures Edit("ab\n", "", 80) == Some(("ab", "")) && Edit("ab\U{8}\n", "", 80) == Some(("a", ""))
  {
    hide Edit;
    EditGoesOn('a', "b\n", "", 80);
    EditGoesOn('b', "\n", "a", 80);
    EditGoesOn('\n', "", "ab", 80);
    EditGoesOn('a', "b\U{8}\n", "", 80);
    EditGoesOn('b', "\U{8}\n", "a", 80);
    EditGoesOn(BACKSPACE, "\n", "ab", 80);
    EditGoesOn('\n', "", "a", 80);
    assert ['a'] + "b\n" == "ab\n" && ['b'] + "\n" == "b\n" && ['\n'] + "" == "\n";
    assert ['a'] + "b\U{8}\n" == "ab\U{8}\n" && ['b'] + "\U{8}\n" == "b\U{8}\n" && [BACKSPACE] + "\n" == "\U{8}\n";
    assert Edited("", 'a') == "a" && Edited("a", 'b') == "ab" && Edited("ab", BACKSPACE) == "a";
  }

  /** got has come in since: whatever can become of what is still to be typed, got and that
      together are what could become of all that was. */
  predicate CameIn(n: nat, typed: string, got: string, n': nat, typed': string) {
    forall j :: 0 <= j <= |typed'| ==> ComesOut(n, typed, got + Kept(n', typed', j))
  }

  predicate ComesOut(n: nat, typed: string, text: string) {
    exists i :: 0 <= i <= |typed| && Kept(n, typed, i) == text
  }

  lemma NothingCameIn(n: nat, typed: string, n': nat)
    requires n <= n'
    ensures CameIn(n, typed, "", n', typed)
  {
    forall j | 0 <= j <= |typed| ensures ComesOut(n, typed, "" + Kept(n', typed, j)) {
      var i := if n == 0 && n' > 0 then 0 else j;
      assert "" + Kept(n', typed, j) == Kept(n', typed, j);
      if n == 0 && n' > 0 { assert WithoutBackspaces(typed[..0]) + typed[0..] == typed; }
      assert Kept(n, typed, i) == "" + Kept(n', typed, j);
    }
  }

  lemma KeptOneMore(n: nat, c: char, typed: string, j: nat)
    requires j <= |typed|
    ensures Kept(n, [c] + typed, j + 1) == (if c == BACKSPACE && n == 0 then "" else [c]) + Kept(n, typed, j)
  {
    var all := [c] + typed;
    assert all[..j + 1] == [c] + typed[..j] && all[j + 1..] == typed[j..];
    assert all[..j + 1][1..] == typed[..j];
  }

  /** One character typed. */
  lemma OneCameIn(n: nat, c: char, typed: string)
    ensures CameIn(n, [c] + typed, if c == BACKSPACE && n == 0 then "" else [c], n, typed)
  {
    hide Kept;
    var all, got := [c] + typed, if c == BACKSPACE && n == 0 then "" else [c];
    forall j | 0 <= j <= |typed| ensures ComesOut(n, all, got + Kept(n, typed, j)) {
      KeptOneMore(n, c, typed, j);
    }
  }

  lemma CameInTogether(n0: nat, t0: string, got: string, n1: nat, t1: string, more: string, n2: nat, t2: string)
    requires CameIn(n0, t0, got, n1, t1) && CameIn(n1, t1, more, n2, t2)
    ensures CameIn(n0, t0, got + more, n2, t2)
  {
    forall k | 0 <= k <= |t2| ensures ComesOut(n0, t0, (got + more) + Kept(n2, t2, k)) {
      var x := Kept(n2, t2, k);
      assert ComesOut(n1, t1, more + x);
      var j :| 0 <= j <= |t1| && Kept(n1, t1, j) == more + x;
      assert got + Kept(n1, t1, j) == (got + more) + x;
    }
  }

  /** Once a character has been counted, what came in is just what was typed. */
  lemma CameInAfterFirst(n: nat, typed: string, got: string, n': nat, typed': string)
    requires n > 0 && n' > 0 && CameIn(n, typed, got, n', typed')
    ensures typed == got + typed'
  {
    assert ComesOut(n, typed, got + Kept(n', typed', 0));
  }

  // ----- A line from a stream --------------------------------------------------------

  /** The text makes a line: it ends in it, and no backspace meets an empty line. */
  predicate LineEnds(text: string, line: string, max: nat) { Edit(text, line, max).Some? }

  /** A longer line makes it no harder to end. */
  lemma {:induction false} LongerLine(s: string, line: string, longer: string, max: nat)
    requires |line| <= |longer| <= max && LineEnds(s, line, max)
    ensures LineEnds(s, longer, max)
    decreases |s|
  {
    if |longer| < max && s[0] != '\n' && s[0] != '\0' {
      LongerLine(s[1..], Edited(line, s[0]), Edited(longer, s[0]), max);
    }
  }

  /** Nor does the loss of backspaces. */
  lemma {:induction false} FewerBackspaces(s: string, i: nat, line: string, max: nat)
    requires i <= |s| && |line| <= max && LineEnds(s, line, max)
    ensures LineEnds(WithoutBackspaces(s[..i]) + s[i..], line, max)
    decreases i
  {
    if i == 0 {
      assert WithoutBackspaces(s[..0]) + s[0..] == s;
    } else if |line| < max {
      var c, t := s[0], s[1..];
      assert s[..i][1..] == t[..i - 1] && s[i..] == t[i - 1..];
      var rest := WithoutBackspaces(t[..i - 1]) + t[i - 1..];
      assert WithoutBackspaces(s[..i]) + s[i..] == (if c == BACKSPACE then "" else [c]) + rest;
      NothingJoined(rest);
      if c == '\n' || c == '\0' {
      } else {
        FewerBackspaces(t, i - 1, Edited(line, c), max);
        if c == BACKSPACE { LongerLine(rest, Edited(line, c), line, max); } else { EditGoesOn(c, rest, line, max); }
      }
    }
  }

  lemma {:induction false} FewerBehind(contents: string, s: string, i: nat, line: string, max: nat)
    requires i <= |s| && |line| <= max && LineEnds(contents + s, line, max)
    ensures LineEnds(contents + (WithoutBackspaces(s[..i]) + s[i..]), line, max)
    decreases |contents|
  {
    var rest := WithoutBackspaces(s[..i]) + s[i..];
    if contents == "" {
      NothingJoined(s);
      NothingJoined(rest);
      FewerBackspaces(s, i, line, max);
    } else if |line| < max {
      var c, more := contents[0], contents[1..];
      assert contents + s == [c] + (more + s) && contents + rest == [c] + (more + rest);
      assert (contents + s)[1..] == more + s;
      if c != '\n' && c != '\0' {
        FewerBehind(more, s, i, Edited(line, c), max);
        EditGoesOn(c, more + rest, line, max);
      }
    }
  }

  /** The line ends whatever the timing if and only if it ends when nothing is lost. */
  lemma LineAlwaysEnds(contents: string, n: nat, ahead: string, max: nat)
    ensures (forall i :: 0 <= i <= |ahead| ==> LineEnds(contents + Kept(n, ahead, i), "", max))
            <==> LineEnds(contents + ahead, "", max)
  {
    hide LineEnds;
    TimingMatters(n, ahead);
    if LineEnds(contents + ahead, "", max) {
      forall i | 0 <= i <= |ahead| ensures LineEnds(contents + Kept(n, ahead, i), "", max) {
        if n == 0 { FewerBehind(contents, ahead, i, "", max); }
      }
    } else {
      assert !LineEnds(contents + Kept(n, ahead, 0), "", max);
    }
  }

  /** Reading done leaves the editor with the line, whatever comes next. */
  ghost predicate EditedTo(done: string, line: string, max: nat) {
    forall y :: Edit(done + y, "", max) == Edit(y, line, max)
  }

  lemma NothingEdited(max: nat)
    ensures EditedTo("", "", max)
  {
    forall y ensures Edit("" + y, "", max) == Edit(y, "", max) {
      assert "" + y == y;
    }
  }

  /** The line after one more character. */
  function Edited(line: string, c: char): (r: string)
    requires c == BACKSPACE ==> line != ""
  {
    if c == BACKSPACE then line[..|line| - 1] else line + [c]
  }

  lemma OneEdited(done: string, line: string, max: nat, c: char)
    requires EditedTo(done, line, max) && |line| < max && c != '\n' && c != '\0' && (c == BACKSPACE ==> line != "")
    ensures EditedTo(done + [c], Edited(line, c), max)
  {
    forall y ensures Edit((done + [c]) + y, "", max) == Edit(y, Edited(line, c), max) {
      assert (done + [c]) + y == done + ([c] + y) && ([c] + y)[1..] == y;
    }
  }

  /** The line ends: from where the editor is, too. */
  lemma StillEnds(contents: string, n: nat, typed: string, got: string, n': nat, typed': string,
                  done: string, rest: string, line: string, max: nat)
    requires LineEnds(contents + typed, "", max) && CameIn(n, typed, got, n', typed')
    requires contents + got == done + rest && EditedTo(done, line, max)
    ensures Edit(rest + Kept(n', typed', |typed'|), line, max).Some?
  {
    hide Edit, Kept;
    var x := Kept(n', typed', |typed'|);
    LineAlwaysEnds(contents, n, typed, max);
    assert ComesOut(n, typed, got + x);
    var i :| 0 <= i <= |typed| && Kept(n, typed, i) == got + x;
    assert LineEnds(contents + Kept(n, typed, i), "", max);
    assert contents + (got + x) == (contents + got) + x == done + (rest + x);
  }

  // ----- The code --------------------------------------------------------------------

  lemma CharsStep(d: Decoder, scs: seq<u8>)
    requires scs != []
    ensures var (d', c) := Decode(d, scs[0]);
      Chars(d, scs) == if c == '\0' then Chars(d', scs[1..]) else [c] + Chars(d', scs[1..])
  {
  }

  /** What the next interrupt gets into the ring. */
  function Came(r: Ring, d: Decoder, scs: seq<u8>): (s: string)
    requires scs != []
  {
    var c := Decode(d, scs[0]).1;
    if c == '\0' then "" else Gain(r, Pushed(c))
  }

  lemma InterruptEffect(r: Ring, d: Decoder, scs: seq<u8>)
    requires Inv(r) && scs != []
    requires var c := Decode(d, scs[0]).1; c == '\0' || Possible(r, Pushed(c))
    ensures var (d', c) := Decode(d, scs[0]);
      var r' := if c == '\0' then r else Happen(r, Pushed(c));
      && Inv(r') && r'.reader == r.reader && r'.served == r.served
      && Contents(r') == Contents(r) + Came(r, d, scs)
      && Continues(r, Chars(d, scs), Came(r, d, scs), r', Chars(d', scs[1..]))
  {
    hide Contents, Decode, Push, Chars, Inv, Happen, Gain, Possible, Continues;
    var (d', c) := Decode(d, scs[0]);
    var more := Chars(d', scs[1..]);
    CharsStep(d, scs);
    if c == '\0' {
      NothingJoined(Contents(r));
      NothingContinues(r, more);
    } else {
      PushCame(r, c, more);
      PushContinues(r, c, more);
    }
  }

  /** got is what has come of the text, and a character to come still is one. */
  predicate Continues(r: Ring, typed: string, got: string, r': Ring, typed': string)
    requires Inv(r) && Inv(r')
  {
    var t, t' := Ahead(r, typed), Ahead(r', typed');
    && CameIn(r.served, t, got, r'.served, t')
    && Kept(r.served, t, |t|) == got + Kept(r'.served, t', |t'|)
  }

  lemma NothingContinues(r: Ring, typed: string)
    requires Inv(r)
    ensures Continues(r, typed, "", r, typed)
  {
    hide Ahead, CameIn, Kept;
    var t := Ahead(r, typed);
    NothingCameIn(r.served, t, r.served);
    NothingJoined(Kept(r.served, t, |t|));
  }

  lemma PushCame(r: Ring, c: char, more: string)
    requires Inv(r) && Possible(r, Pushed(c))
    ensures var r', got := Happen(r, Pushed(c)), Gain(r, Pushed(c));
      Inv(r') && r'.reader == r.reader && r'.served == r.served && Contents(r') == Contents(r) + got
  {
    hide Contents, Full, Push, Inv;
    PushEffect(r, c);
    NothingJoined(Contents(r));
  }

  lemma PushContinues(r: Ring, c: char, more: string)
    requires Inv(r) && Possible(r, Pushed(c))
    ensures Continues(r, [c] + more, Gain(r, Pushed(c)), Happen(r, Pushed(c)), more)
  {
    hide Contents, Happen, Inv, CameIn, Kept, Possible;
    PushCame(r, c, more);
    assert ([c] + more)[1..] == more;
    if Dropped(r, c) && r.reader == Idle && Contents(r) == "" {
      SameAhead(r, c, more);
      NothingContinues(r, more);
    } else {
      KeptOneMore(r.served, c, more, |more|);
      OneCameIn(r.served, c, more);
    }
  }

  /** A backspace that is dropped with nothing to be read. */
  lemma SameAhead(r: Ring, c: char, more: string)
    requires Inv(r) && Possible(r, Pushed(c)) && Dropped(r, c) && r.reader == Idle && Contents(r) == ""
    ensures Happen(r, Pushed(c)) == r && Ahead(r, [c] + more) == Ahead(r, more)
  {
    hide Contents, Inv;
    assert ([c] + more)[1..] == more;
  }

  lemma NothingJoined(s: string)
    ensures s + "" == s && "" + s == s
  {
  }

  lemma JoinLater(a: string, b: string, got: string, more: string)
    ensures (a + got) + more == a + (got + more) && (b + got) + more == b + (got + more)
  {
  }

  lemma CameInCounted(n: nat, typed: string, got: string, typed': string)
    requires CameIn(n, typed, got, n, typed')
    ensures CameIn(n, typed, got, n + 1, typed')
  {
    hide CameIn;
    NothingCameIn(n, typed', n + 1);
    CameInTogether(n, typed, got, n, typed', "", n + 1, typed');
    assert got + "" == got;
  }

  lemma JoinFour(a: string, more1: string, more2: string, more3: string, more4: string)
    ensures (((a + more1) + more2) + more3) + more4 == a + (((more1 + more2) + more3) + more4)
  {
  }

  /** What came in while kbd_getc took c. */
  lemma TakenFrom(contents: string, more1: string, more2: string, c: char, left: string, more3: string, more4: string)
    requires (contents + more1) + more2 == [c] + left
    ensures contents + (((more1 + more2) + more3) + more4) == [c] + ((left + more3) + more4)
  {
    JoinFour(contents, more1, more2, more3, more4);
  }

  lemma NothingPlain()
    ensures Plain("")
  {
  }

  lemma LineFull(done: string, contents: string, line: string, max: nat)
    requires EditedTo(done, line, max) && |line| == max
    ensures Edit(done + contents, "", max) == Some((line, contents))
  {
  }

  lemma KeyComes(contents: string, got: string, more: string, done: string, rest: string, c: char, left: string)
    requires contents + got == done + rest && rest + more == [c] + left
    ensures contents + (got + more) == done + ([c] + left) == (done + [c]) + left
  {
    assert contents + (got + more) == (contents + got) + more == done + (rest + more);
  }

  /** The first character of a line that ends. */
  lemma FirstKey(all: string, done: string, c: char, left: string, more: string, line: string, max: nat)
    requires EditedTo(done, line, max) && all == done + ([c] + left) && |line| < max
    requires Edit(([c] + left) + more, line, max).Some?
    ensures c == BACKSPACE ==> line != ""
    ensures c == '\n' || c == '\0' ==> Edit(all, "", max) == Some((line, left))
  {
    assert Edit(all, "", max) == Edit([c] + left, line, max);
    assert ([c] + left)[1..] == left && (([c] + left) + more)[0] == c;
  }

  class Driver {
    const kbd_drvr_buf: array<char>
    var kbd_buf_head: nat
    var kbd_buf_tail: nat
    var buffering_read: bool
    var cursor_read: nat
    var shift: bool
    var caps: bool
    var extended: bool
    ghost var reader: Reader
    ghost var arrived: string // all that KbdPushback has stored
    var pending: seq<u8>      // scancodes the keyboard has still to send

    ghost function View(): (r: Ring)
      reads this`kbd_buf_head, this`kbd_buf_tail, this`cursor_read, this`reader, kbd_drvr_buf
    {
      Ring(kbd_drvr_buf[..], kbd_buf_head, kbd_buf_tail, cursor_read, reader)
    }

    function State(): (r: Decoder)
      reads this`extended, this`shift, this`caps
    {
      Decoder(extended, shift, caps)
    }

    constructor (pending: seq<u8>)
      ensures Inv(View()) && Contents(View()) == "" && fresh(kbd_drvr_buf)
      ensures State() == Decoder(false, false, false) && this.pending == pending
      ensures cursor_read == 0 && reader == Idle && arrived == ""
    {
      kbd_drvr_buf := new char[KBD_BUF_SIZE](_ => '\0');
      kbd_buf_head, kbd_buf_tail, cursor_read := 0, 0, 0;
      buffering_read, shift, caps, extended := false, false, false, false;
      reader, arrived := Idle, "";
      this.pending := pending;
    }

    method OverflowKbdBfr()
      requires Inv(View())
      modifies this`kbd_buf_head, this`kbd_buf_tail, this`reader, kbd_drvr_buf
      ensures View() == old(View()).(buf := seq(KBD_BUF_SIZE, _ => '\0'), head := 0, tail := 0, reader := Idle)
    {
      kbd_buf_head, kbd_buf_tail, reader := 0, 0, Idle;
      for i := 0 to KBD_BUF_SIZE
        invariant kbd_buf_head == kbd_buf_tail == 0 && reader == Idle
        invariant forall k :: 0 <= k < i ==> kbd_drvr_buf[k] == '\0'
      {
        kbd_drvr_buf[i] := '\0';
      }
      assert kbd_drvr_buf[..] == seq(KBD_BUF_SIZE, _ => '\0');
    }

    method KbdPushback(c: char)
      requires Inv(View())
      modifies this`kbd_buf_head, this`kbd_buf_tail, this`reader, this`arrived, kbd_drvr_buf
      ensures View() == Push(old(View()), c)
      ensures arrived == old(arrived) + if Full(old(View())) then "" else Gain(old(View()), Pushed(c))
    {
      if c == BACKSPACE {
        if cursor_read == 0 { return; }
      }
      var next := Around(kbd_buf_head + 1, KBD_BUF_SIZE);
      if next != kbd_buf_tail {
        kbd_drvr_buf[kbd_buf_head] := c;
        kbd_buf_head := next;
        arrived := arrived + [c];
      } else {
        OverflowKbdBfr();
      }
    }

    /** The interrupt handler. */
    method KeyboardDriverMain(scancode: u8)
      requires Inv(View())
      modifies this`kbd_buf_head, this`kbd_buf_tail, this`reader, this`arrived,
               this`shift, this`caps, this`extended, kbd_drvr_buf
      ensures State() == Decode(old(State()), scancode).0
      ensures var c := Decode(old(State()), scancode).1;
        if c == '\0' then View() == old(View()) && arrived == old(arrived)
        else View() == Push(old(View()), c) &&
             arrived == old(arrived) + if Full(old(View())) then "" else Gain(old(View()), Pushed(c))
    {
      if scancode == 0xE0 {
        extended := true;
        return;
      }
      if extended {
        extended := false;
        return;
      }
      if scancode >= 0x80 {
        var key := scancode % 0x80;
        if key == 0x2A || key == 0x36 {
          shift := false;
        }
        return;
      } else {
        if scancode == 0x2A || scancode == 0x36 {
          shift := true;
          return;
        }
        if scancode == 0x3A {
          caps := !caps;
          return;
        }
      }
      var ch;
      if shift {
        ch := Layout(SHIFTED, scancode);
      } else if caps && 'a' <= Layout(NORMAL, scancode) <= 'z' {
        ch := Layout(CAPS, scancode);
      } else {
        ch := Layout(NORMAL, scancode);
      }
      if ch != '\0' {
        KbdPushback(ch);
      }
    }

    /** What is still to be typed. */
    ghost function Typed(): (r: string)
      reads this`extended, this`shift, this`caps, this`pending
    {
      Chars(State(), pending)
    }

    ghost function AheadOf(): (r: string)
      requires Inv(View())
      reads this`kbd_buf_head, this`kbd_buf_tail, this`cursor_read, this`reader,
            this`extended, this`shift, this`caps, this`pending, kbd_drvr_buf
    {
      Ahead(View(), Typed())
    }

    /** Characters in the ring and scancodes to come. */
    ghost function Supply(): (r: nat)
      requires Inv(View())
      reads this`kbd_buf_head, this`kbd_buf_tail, this`cursor_read, this`reader,
            this`pending, kbd_drvr_buf
    {
      |Contents(View())| + |pending|
    }

    /** The next interrupt, if there is one, does not find the ring full. */
    predicate CanInterrupt()
      requires kbd_buf_head < KBD_BUF_SIZE
      reads this`kbd_buf_head, this`kbd_buf_tail, this`cursor_read,
            this`extended, this`shift, this`caps, this`pending
    {
      && pending != []
      && var c := Decode(State(), pending[0]).1;
         c == '\0' || (c == BACKSPACE && cursor_read == 0) || Around(kbd_buf_head + 1, KBD_BUF_SIZE) != kbd_buf_tail
    }

    /** A character is there or will come, however early the backspaces typed come in. */
    ghost predicate MoreComes()
      requires Inv(View())
      reads this`kbd_buf_head, this`kbd_buf_tail, this`cursor_read, this`reader,
            this`extended, this`shift, this`caps, this`pending, kbd_drvr_buf
    {
      Contents(View()) != "" || Kept(cursor_read, AheadOf(), |AheadOf()|) != ""
    }

    /** The keyboard interrupts once, which pushes at most one character. */
    method Interrupt() returns (ghost got: string)
      requires Inv(View()) && CanInterrupt()
      modifies this`kbd_buf_head, this`kbd_buf_tail, this`reader, this`arrived,
               this`shift, this`caps, this`extended, this`pending, kbd_drvr_buf
      ensures var c := Decode(old(State()), old(pending)[0]).1;
        View() == if c == '\0' then old(View()) else Happen(old(View()), Pushed(c))
      ensures Inv(View()) && reader == old(reader) && pending == old(pending)[1..] && Supply() <= old(Supply())
      ensures arrived == old(arrived) + got && Contents(View()) == old(Contents(View())) + got
      ensures CameIn(cursor_read, old(AheadOf()), got, cursor_read, AheadOf())
      ensures old(MoreComes()) ==> MoreComes()
    {
      hide Contents, Chars, Push, Decode, Around, CameIn, Kept;
      InterruptEffect(View(), State(), pending);
      got := Came(View(), State(), pending);
      var scancode := pending[0];
      pending := pending[1..];
      KeyboardDriverMain(scancode);
    }

    /** The keyboard interrupts any number of times, short of finding the ring full. */
    method Interrupts() returns (ghost got: string)
      requires Inv(View())
      modifies this`kbd_buf_head, this`kbd_buf_tail, this`reader, this`arrived,
               this`shift, this`caps, this`extended, this`pending, kbd_drvr_buf
      ensures Inv(View()) && reader == old(reader) && Supply() <= old(Supply())
      ensures arrived == old(arrived) + got && Contents(View()) == old(Contents(View())) + got
      ensures CameIn(cursor_read, old(AheadOf()), got, cursor_read, AheadOf())
      ensures old(MoreComes()) ==> MoreComes()
    {
      hide Contents, Chars, Decode, CameIn, Kept, AheadOf, Supply, State, MoreComes;
      got := "";
      NothingCameIn(cursor_read, AheadOf(), cursor_read);
      while *
        invariant Inv(View()) && reader == old(reader) && Supply() <= old(Supply())
        invariant arrived == old(arrived) + got && Contents(View()) == old(Contents(View())) + got
        invariant CameIn(cursor_read, old(AheadOf()), got, cursor_read, AheadOf())
        invariant old(MoreComes()) ==> MoreComes()
        decreases |pending|
      {
        if !CanInterrupt() { break; }
        ghost var typed := AheadOf();
        ghost var more := Interrupt();
        CameInTogether(cursor_read, old(AheadOf()), got, cursor_read, typed, more, cursor_read, AheadOf());
        JoinLater(old(Contents(View())), old(arrived), got, more);
        got := got + more;
      }
    }

    /** The waiting loop, with interrupts going on. */
    method Await() returns (ghost got: string)
      requires Inv(View()) && MoreComes()
      modifies this`kbd_buf_head, this`kbd_buf_tail, this`reader, this`arrived,
               this`shift, this`caps, this`extended, this`pending, kbd_drvr_buf
      ensures Inv(View()) && reader == old(reader) && Supply() <= old(Supply())
      ensures arrived == old(arrived) + got && Contents(View()) == old(Contents(View())) + got
      ensures CameIn(cursor_read, old(AheadOf()), got, cursor_read, AheadOf())
      ensures kbd_buf_head != kbd_buf_tail
    {
      hide Contents, Chars, Decode, CameIn, Kept;
      got := Interrupts();
      while kbd_buf_head == kbd_buf_tail
        invariant Inv(View()) && reader == old(reader) && Supply() <= old(Supply())
        invariant arrived == old(arrived) + got && Contents(View()) == old(Contents(View())) + got
        invariant CameIn(cursor_read, old(AheadOf()), got, cursor_read, AheadOf())
        invariant MoreComes()
        decreases |pending|
      {
        SomethingPending();
        ghost var typed := AheadOf();
        ghost var more := Interrupt();
        CameInTogether(cursor_read, old(AheadOf()), got, cursor_read, typed, more, cursor_read, AheadOf());
        JoinLater(old(Contents(View())), old(arrived), got, more);
        got := got + more;
      }
    }

    lemma SomethingPending()
      requires Inv(View()) && MoreComes() && kbd_buf_head == kbd_buf_tail
      ensures CanInterrupt()
    {
      assert Contents(View()) == "";
      WithoutBackspacesIs(AheadOf());
    }

    /** kbd_getc, interrupted between any two steps: it gives out the oldest character of what
        was in the ring and has come in since, and the rest is in the ring. */
    method kbd_getc() returns (c: char, ghost got: string)
      requires Inv(View()) && reader == Idle && MoreComes()
      modifies this, kbd_drvr_buf
      ensures Inv(View()) && reader == Idle && cursor_read == old(cursor_read) + 1 && Supply() < old(Supply())
      ensures arrived == old(arrived) + got && old(Contents(View())) + got == [c] + Contents(View())
      ensures CameIn(old(cursor_read), old(AheadOf()), got, cursor_read, AheadOf())
    {
      hide *;
      ghost var n, typed, contents := cursor_read, AheadOf(), Contents(View());
      buffering_read := true;
      ghost var more2, more3, more4;
      got := Await();
      ghost var t1 := AheadOf();
      c := ReadSlot();
      more2 := Interrupts();
      ghost var t2 := AheadOf();
      TakeSlot(c);
      ghost var left := Contents(View());
      more3 := Interrupts();
      ghost var t3 := AheadOf();
      CountIt();
      more4 := Interrupts();
      CameInTogether(n, typed, got, n, t1, more2, n, t2);
      CameInTogether(n, typed, got + more2, n, t2, more3, n, t3);
      CameInCounted(n, typed, (got + more2) + more3, t3);
      CameInTogether(n, typed, (got + more2) + more3, n + 1, t3, more4, n + 1, AheadOf());
      TakenFrom(contents, got, more2, c, left, more3, more4);
      JoinFour(old(arrived), got, more2, more3, more4);
      got := ((got + more2) + more3) + more4;
    }

    /** The oldest character is read from its slot. */
    method ReadSlot() returns (c: char)
      requires Inv(View()) && reader == Idle && kbd_buf_head != kbd_buf_tail
      modifies this`reader
      ensures View() == Happen(old(View()), SlotRead) && Inv(View())
      ensures reader == Holding(c) && Contents(View()) == old(Contents(View())) && Supply() == old(Supply())
      ensures AheadOf() == old(AheadOf())
    {
      c := kbd_drvr_buf[kbd_buf_tail];
      reader := Holding(c);
    }

    /** The slot is given free. */
    method TakeSlot(ghost c: char)
      requires Inv(View()) && reader == Holding(c)
      modifies this`kbd_buf_tail, this`reader
      ensures View() == Happen(old(View()), TailMoved) && Inv(View())
      ensures reader == Leaving && old(Contents(View())) == [c] + Contents(View()) && Supply() < old(Supply())
      ensures AheadOf() == old(AheadOf())
    {
      AdvanceRemoves(View());
      kbd_buf_tail := Around(kbd_buf_tail + 1, KBD_BUF_SIZE);
      reader := Leaving;
    }

    /** The character is counted. */
    method CountIt()
      requires Inv(View()) && reader == Leaving
      modifies this`buffering_read, this`cursor_read, this`reader
      ensures View() == Happen(old(View()), Counted) && Inv(View())
      ensures reader == Idle && cursor_read == old(cursor_read) + 1
      ensures Contents(View()) == old(Contents(View())) && Supply() == old(Supply())
      ensures AheadOf() == old(AheadOf())
    {
      buffering_read := false;
      cursor_read := cursor_read + 1;
      reader := Idle;
    }

    /** The first loop of kbd_gets. */
    static method Erase(out: array<char>, maxlen: nat)
      requires maxlen <= out.Length
      modifies out
      ensures forall k :: 0 <= k < maxlen ==> out[k] == '\0'
      ensures out[maxlen..] == old(out[maxlen..])
    {
      for i := 0 to maxlen
        invariant forall k :: 0 <= k < i ==> out[k] == '\0'
        invariant out[maxlen..] == old(out[maxlen..])
      {
        out[i] := '\0';
      }
    }

    /** A line of n characters in out, zeros behind it. */
    static ghost predicate Holds(out: seq<char>, n: nat, maxlen: nat) {
      n <= maxlen <= |out| && Plain(out[..n]) && forall k :: n <= k < maxlen ==> out[k] == '\0'
    }

    /** What kbd_gets does to its line with a character that does not end it. */
    static method EditLine(out: array<char>, read: nat, c: char, maxlen: nat) returns (read': nat)
      requires read + 1 < maxlen && Holds(out[..], read, maxlen) && c != '\n' && c != '\0'
      requires c == BACKSPACE ==> read > 0
      modifies out
      ensures Holds(out[..], read', maxlen) && read' < maxlen
      ensures out[..read'] == Edited(old(out[..read]), c)
      ensures out[maxlen..] == old(out[maxlen..])
    {
      ghost var line := out[..read];
      if c == BACKSPACE {
        read' := read - 1;
        out[read'] := '\0';
        assert out[..read'] == line[..read - 1];
        return;
      }
      out[read] := c;
      read' := read + 1;
      assert out[..read'] == line + [c];
    }

    /** The last loop of kbd_gets counts the line again. */
    static method LineLength(out: array<char>, maxlen: nat, ghost read: nat) returns (tmprd: nat)
      requires read < maxlen && Holds(out[..], read, maxlen)
      ensures tmprd == read
    {
      tmprd := 0;
      while out[tmprd] != '\0'
        invariant tmprd <= read
        decreases maxlen - tmprd
      {
        tmprd := tmprd + 1;
      }
    }

    /** kbd_gets: out holds the line edited from what was in the ring and has come in since,
        then zeros up to maxlen; what came in behind the line is in the ring. */
    method kbd_gets(out: array<char>, maxlen: nat) returns (read: nat, ghost got: string)
      requires Inv(View()) && reader == Idle && out != kbd_drvr_buf
      requires 1 <= maxlen <= out.Length
      requires LineEnds(Contents(View()) + AheadOf(), "", maxlen - 1)
      modifies this, kbd_drvr_buf, out
      ensures Inv(View()) && reader == Idle && read < maxlen
      ensures Edit(old(Contents(View())) + got, "", maxlen - 1) == Some((out[..read], Contents(View())))
      ensures arrived == old(arrived) + got
      ensures CameIn(old(cursor_read), old(AheadOf()), got, cursor_read, AheadOf())
      ensures forall k :: read <= k < maxlen ==> out[k] == '\0'
      ensures out[maxlen..] == old(out[maxlen..])
    {
      hide Contents, Chars, Decode, Edit, Inv, Kept, CameIn, LineEnds, EditedTo;
      hide View, State, AheadOf, Supply, Plain, Edited;
      ghost var contents, n, typed, max := Contents(View()), cursor_read, AheadOf(), maxlen - 1;
      Erase(out, maxlen);
      read, got := 0, "";
      ghost var done := "";
      NothingCameIn(n, typed, n);
      NothingEdited(max);
      NothingPlain();
      NothingJoined(contents);
      NothingJoined(old(arrived));
      assert out[..0] == "";
      while read < maxlen - 1
        invariant Inv(View()) && reader == Idle && read < maxlen && Holds(out[..], read, maxlen)
        invariant arrived == old(arrived) + got && contents + got == done + Contents(View())
        invariant CameIn(n, typed, got, cursor_read, AheadOf()) && EditedTo(done, out[..read], max)
        invariant out[maxlen..] == old(out[maxlen..])
        decreases Supply()
      {
        ghost var line := out[..read];
        var c;
        c, got := NextKey(old(arrived), contents, n, typed, got, done, line, max);
        if c == '\n' || c == '\0' {
          break;
        }
        OneEdited(done, line, max, c);
        done := done + [c];
        read := EditLine(out, read, c, maxlen);
      }
      if read == maxlen - 1 { LineFull(done, Contents(View()), out[..read], max); }
      var tmprd := LineLength(out, maxlen, read);
      if tmprd != read { read := tmprd; }
    }

    /** The call of kbd_getc in kbd_gets: the line goes on or ends, and no backspace meets an
        empty line. */
    method NextKey(ghost before: string, ghost contents: string, ghost n: nat, ghost typed: string, ghost got: string,
                   ghost done: string, ghost line: string, ghost max: nat)
      returns (c: char, ghost got': string)
      requires Inv(View()) && reader == Idle && |line| < max
      requires LineEnds(contents + typed, "", max) && EditedTo(done, line, max)
      requires contents + got == done + Contents(View()) && CameIn(n, typed, got, cursor_read, AheadOf())
      requires arrived == before + got
      modifies this, kbd_drvr_buf
      ensures Inv(View()) && reader == Idle && Supply() < old(Supply())
      ensures arrived == before + got'
      ensures contents + got' == (done + [c]) + Contents(View())
      ensures CameIn(n, typed, got', cursor_read, AheadOf())
      ensures c == BACKSPACE ==> line != ""
      ensures c == '\n' || c == '\0' ==> Edit(contents + got', "", max) == Some((line, Contents(View())))
    {
      hide Contents, Chars, Decode, Inv, CameIn, LineEnds, EditedTo, Kept, Edit;
      StillEnds(contents, n, typed, got, cursor_read, AheadOf(), done, Contents(View()), line, max);
      EditStep(Contents(View()) + Kept(cursor_read, AheadOf(), |AheadOf()|), line, max);
      ghost var n1, t1, rest := cursor_read, AheadOf(), Contents(View());
      ghost var more;
      c, more := kbd_getc();
      got' := got + more;
      JoinLater(before, before, got, more);
      CameInTogether(n, typed, got, n1, t1, more, cursor_read, AheadOf());
      KeyComes(contents, got, more, done, rest, c, Contents(View()));
      StillEnds(contents, n, typed, got', cursor_read, AheadOf(), done, [c] + Contents(View()), line, max);
      FirstKey(contents + got', done, c, Contents(View()), Kept(cursor_read, AheadOf(), |AheadOf()|), line, max);
    }
  }
}
