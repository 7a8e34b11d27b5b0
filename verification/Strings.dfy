/** string.c: memmove, strchr, strstr and strtok. A pointer is an index into one memory, and
    a string runs from its pointer to the first zero character. */
module Strings {
  import opened Words
  import opened Wrappers

  // ----- memmove ---------------------------------------------------------------------

  /** C11 section 7.24.2.2: the n bytes at src arrive at dest as they were, however the two
      ranges overlap, and no other byte changes. */
  method memmove(mem: array<u8>, dest: nat, src: nat, n: nat)
    requires dest + n <= mem.Length && src + n <= mem.Length
    modifies mem
    ensures mem[..] == old(mem[..dest] + mem[src..src + n] + mem[dest + n..])
  {
    ghost var was := mem[..];
    if src > dest {
      for i := 0 to n
        invariant forall k :: dest <= k < dest + i ==> mem[k] == was[k + src - dest]
        invariant forall k :: 0 <= k < mem.Length && !(dest <= k < dest + i) ==> mem[k] == was[k]
      {
        mem[dest + i] := mem[src + i];
      }
    } else if src < dest {
      var i := n;
      while i > 0
        invariant 0 <= i <= n
        invariant forall k :: dest + i <= k < dest + n ==> mem[k] == was[k + src - dest]
        invariant forall k :: 0 <= k < mem.Length && !(dest + i <= k < dest + n) ==> mem[k] == was[k]
      {
        mem[dest + i - 1] := mem[src + i - 1];
        i := i - 1;
      }
    }
    Pieces(mem[..], was, dest, src, n);
  }

  lemma Pieces(now: seq<u8>, was: seq<u8>, dest: nat, src: nat, n: nat)
    requires |now| == |was| && dest + n <= |was| && src + n <= |was|
    requires forall k :: dest <= k < dest + n ==> now[k] == was[k + src - dest]
    requires forall k :: 0 <= k < |was| && !(dest <= k < dest + n) ==> now[k] == was[k]
    ensures now == was[..dest] + was[src..src + n] + was[dest + n..]
  {
  }

  // ----- Strings in memory -----------------------------------------------------------

  predicate Terminated(m: string, p: nat) { exists k :: p <= k < |m| && m[k] == '\0' }

  /** The end of the string at p. */
  function Nul(m: string, p: nat): (z: nat)
    requires Terminated(m, p)
    ensures p <= z < |m| && m[z] == '\0' && forall k :: p <= k < z ==> m[k] != '\0'
    decreases |m| - p
  {
    if m[p] == '\0' then p else Nul(m, p + 1)
  }

  function Text(m: string, p: nat): (s: string)
    requires Terminated(m, p)
    ensures |s| == Nul(m, p) - p
  {
    m[p..Nul(m, p)]
  }

  lemma NulIs(m: string, p: nat, z: nat)
    requires p <= z < |m| && m[z] == '\0' && forall k :: p <= k < z ==> m[k] != '\0'
    ensures Terminated(m, p) && Nul(m, p) == z
  {
  }

  // ----- strchr and strstr -----------------------------------------------------------

  method strchr(str: string, c: char) returns (at: Option<nat>)
    ensures at.Some? <==> c in str
    ensures at.Some? ==> at.value < |str| && str[at.value] == c && c !in str[..at.value]
  {
    for i := 0 to |str|
      invariant c !in str[..i]
    {
      if str[i] == c { return Some(i); }
    }
    return None;
  }

  predicate OccursAt(text: string, needle: string, i: nat) { i <= |text| && needle <= text[i..] }

  /** C11 section 7.24.5.7: the first place where the needle occurs, NULL if and only if it
      occurs nowhere, and the haystack itself for an empty needle. */
  method strstr(m: string, haystack: nat, needle: nat) returns (at: Option<nat>)
    requires Terminated(m, haystack) && Terminated(m, needle)
    ensures at.None? <==> forall i: nat :: !OccursAt(Text(m, haystack), Text(m, needle), i)
    ensures at.Some? ==> haystack <= at.value && OccursAt(Text(m, haystack), Text(m, needle), at.value - haystack)
    ensures (at.Some? ==> forall i: nat :: i < at.value - haystack ==>
             !OccursAt(Text(m, haystack), Text(m, needle), i))
  {
    if m[needle] == '\0' {
      assert OccursAt(Text(m, haystack), Text(m, needle), 0);
      return Some(haystack);
    }
    var p := haystack;
    while m[p] != '\0'
      invariant haystack <= p <= Nul(m, haystack)
      invariant forall i: nat :: i < p - haystack ==> !OccursAt(Text(m, haystack), Text(m, needle), i)
      decreases |m| - p
    {
      var found := Matches(m, haystack, needle, p);
      if found { return Some(p); }
      p := p + 1;
    }
    assert Text(m, needle)[0] == m[needle];
    return None;
  }

  /** The inner loop of strstr: does the needle occur at p? */
  method Matches(m: string, ghost haystack: nat, needle: nat, p: nat) returns (found: bool)
    requires Terminated(m, haystack) && Terminated(m, needle) && haystack <= p <= Nul(m, haystack)
    ensures found <==> OccursAt(Text(m, haystack), Text(m, needle), p - haystack)
  {
    hide Nul;
    ghost var there, sought := Text(m, haystack)[p - haystack..], Text(m, needle);
    assert there == m[p..Nul(m, haystack)];
    var h, n := p, needle;
    while m[h] != '\0' && m[n] != '\0' && m[h] == m[n]
      invariant p <= h <= Nul(m, haystack) && needle <= n <= Nul(m, needle) && h - p == n - needle
      invariant forall k :: 0 <= k < h - p ==> there[k] == sought[k]
      decreases |m| - h
    {
      assert there[h - p] == m[h] && sought[h - p] == m[n];
      h, n := h + 1, n + 1;
    }
    Compared(there, sought, h - p);
    return m[n] == '\0';
  }

  /** The first difference decides. */
  lemma Compared(text: string, needle: string, k: nat)
    requires k <= |text| && k <= |needle| && forall i :: 0 <= i < k ==> text[i] == needle[i]
    requires k == |needle| || k == |text| || text[k] != needle[k]
    ensures needle <= text <==> k == |needle|
  {
  }

  // ----- strtok ----------------------------------------------------------------------

  /** The first position from p on that holds no delimiter, or the end of the string. */
  function SkipDelims(m: string, p: nat, d: string): (a: nat)
    requires Terminated(m, p)
    ensures p <= a <= Nul(m, p) && (a < Nul(m, p) ==> m[a] !in d)
    ensures forall k :: p <= k < a ==> m[k] in d
    decreases |m| - p
  {
    if m[p] != '\0' && m[p] in d then SkipDelims(m, p + 1, d) else p
  }

  /** The first position from p on that holds a delimiter, or the end of the string. */
  function TokenEnd(m: string, p: nat, d: string): (b: nat)
    requires Terminated(m, p)
    ensures p <= b <= Nul(m, p) && (b < Nul(m, p) ==> m[b] in d)
    ensures forall k :: p <= k < b ==> m[k] !in d
    decreases |m| - p
  {
    if m[p] != '\0' && m[p] !in d then TokenEnd(m, p + 1, d) else p
  }

  /** The memory and the static pointer of strtok. */
  datatype Scan = Scan(mem: string, next: Option<nat>)

  predicate Ready(t: Scan) { t.next.Some? ==> Terminated(t.mem, t.next.value) }

  /** One call strtok(NULL, d): the token is cut off at its end and the rest is kept for the
      next call. */
  function Strtok(t: Scan, d: string): (r: (Scan, Option<nat>))
    requires Ready(t)
    ensures Ready(r.0)
  {
    if t.next.None? then (t, None)
    else
      var p := t.next.value;
      var a := SkipDelims(t.mem, p, d);
      if t.mem[a] == '\0' then (t.(next := None), None)
      else
        var b := TokenEnd(t.mem, a, d);
        if t.mem[b] == '\0' then (t.(next := None), Some(a))
        else
          var z := Nul(t.mem, p);
          assert t.mem[b := '\0'][z] == '\0';
          (Scan(t.mem[b := '\0'], Some(b + 1)), Some(a))
  }

  datatype Span = Span(start: nat, end: nat)

  /** The tokens of the string at p. */
  function Spans(m: string, p: nat, d: string): (r: seq<Span>)
    requires Terminated(m, p)
    ensures forall i :: 0 <= i < |r| ==> r[i].end < |m|
    decreases |m| - p
  {
    var a := SkipDelims(m, p, d);
    if m[a] == '\0' then []
    else
      var b := TokenEnd(m, a, d);
      [Span(a, b)] + if m[b] == '\0' then [] else Spans(m, b + 1, d)
  }

  /** A maximal non-empty piece of m[p..z] with no delimiter in it. */
  predicate Maximal(m: string, p: nat, z: nat, d: string, s: Span)
    requires z < |m|
  {
    && p <= s.start < s.end <= z
    && (forall k :: s.start <= k < s.end ==> m[k] !in d)
    && (s.start == p || m[s.start - 1] in d)
    && (s.end == z || m[s.end] in d)
  }

  /** Where the first token lies. */
  lemma FirstSpan(m: string, p: nat, a: nat, b: nat, z: nat, d: string)
    requires Terminated(m, p) && z == Nul(m, p) && a == SkipDelims(m, p, d)
    requires Terminated(m, a) && b == TokenEnd(m, a, d)
    ensures z == Nul(m, a) && m[z] == '\0' && a <= b <= z && (a < z ==> a < b)
    ensures b < z ==> m[b] != '\0' && Terminated(m, b + 1) && Nul(m, b + 1) == z
  {
  }

  /** How the definition of Spans goes on. */
  lemma SpansStep(m: string, p: nat, a: nat, b: nat, z: nat, d: string)
    requires Terminated(m, p) && z == Nul(m, p) && a == SkipDelims(m, p, d)
    requires Terminated(m, a) && b == TokenEnd(m, a, d)
    ensures a == z ==> Spans(m, p, d) == []
    ensures a < z && b == z ==> Spans(m, p, d) == [Span(a, b)]
    ensures b < z ==> Terminated(m, b + 1) && Spans(m, p, d) == [Span(a, b)] + Spans(m, b + 1, d)
  {
    hide Nul, SkipDelims, TokenEnd, Terminated, Spans;
    FirstSpan(m, p, a, b, z, d);
    if a == z { NoSpans(m, p, d); } else if b == z { LastSpan(m, p, d); } else { MoreSpans(m, p, d); }
  }

  lemma NoSpans(m: string, p: nat, d: string)
    requires Terminated(m, p) && m[SkipDelims(m, p, d)] == '\0'
    ensures Spans(m, p, d) == []
  {
  }

  lemma LastSpan(m: string, p: nat, d: string)
    requires Terminated(m, p) && m[SkipDelims(m, p, d)] != '\0' && Terminated(m, SkipDelims(m, p, d))
    requires m[TokenEnd(m, SkipDelims(m, p, d), d)] == '\0'
    ensures Spans(m, p, d) == [Span(SkipDelims(m, p, d), TokenEnd(m, SkipDelims(m, p, d), d))]
  {
    hide Nul, SkipDelims, TokenEnd, Terminated;
  }

  lemma MoreSpans(m: string, p: nat, d: string)
    requires Terminated(m, p) && m[SkipDelims(m, p, d)] != '\0' && Terminated(m, SkipDelims(m, p, d))
    requires m[TokenEnd(m, SkipDelims(m, p, d), d)] != '\0' && Terminated(m, TokenEnd(m, SkipDelims(m, p, d), d) + 1)
    ensures var a := SkipDelims(m, p, d);
      var b := TokenEnd(m, a, d);
      Spans(m, p, d) == [Span(a, b)] + Spans(m, b + 1, d)
  {
    hide Nul, SkipDelims, TokenEnd, Terminated;
  }

  lemma FirstToken(m: string, p: nat, a: nat, b: nat, z: nat, d: string, s: Span)
    requires p <= a < b <= z < |m|
    requires forall k :: p <= k < a ==> m[k] in d
    requires forall k :: a <= k < b ==> m[k] !in d
    requires b < z ==> m[b] in d
    ensures Maximal(m, p, z, d, s) <==> s == Span(a, b) || Maximal(m, b + 1, z, d, s)
  {
    if Maximal(m, p, z, d, s) {
      assert m[s.start] !in d;
      if s.start <= b { assert s.start == a && s.end == b; }
    }
  }

  /** The tokens are the maximal non-empty delimiter-free pieces, all of them ... */
  lemma {:induction false} SpansAreMaximal(m: string, p: nat, d: string, s: Span)
    requires Terminated(m, p)
    ensures s in Spans(m, p, d) <==> Maximal(m, p, Nul(m, p), d, s)
    decreases |m| - p
  {
    hide Maximal, Spans;
    var a, z := SkipDelims(m, p, d), Nul(m, p);
    NulIs(m, a, z);
    var b := TokenEnd(m, a, d);
    FirstSpan(m, p, a, b, z, d);
    SpansStep(m, p, a, b, z, d);
    if a == z {
      NoToken(m, p, z, d, s);
    } else {
      FirstToken(m, p, a, b, z, d, s);
      if b < z { SpansAreMaximal(m, b + 1, d, s); } else { NoToken(m, b + 1, z, d, s); }
    }
  }

  lemma NoToken(m: string, p: nat, z: nat, d: string, s: Span)
    requires z < |m| && forall k :: p <= k < z ==> m[k] in d
    ensures !Maximal(m, p, z, d, s)
  {
    assert p <= s.start < z ==> m[s.start] in d;
  }

  /** ... in the order of the text, with at least one delimiter between two. */
  lemma {:induction false} SpansInOrder(m: string, p: nat, d: string)
    requires Terminated(m, p)
    ensures forall s :: s in Spans(m, p, d) ==> p <= s.start < s.end <= Nul(m, p)
    ensures forall i, j :: 0 <= i < j < |Spans(m, p, d)| ==> Spans(m, p, d)[i].end < Spans(m, p, d)[j].start
    decreases |m| - p
  {
    hide Spans;
    var a, z := SkipDelims(m, p, d), Nul(m, p);
    NulIs(m, a, z);
    var b := TokenEnd(m, a, d);
    FirstSpan(m, p, a, b, z, d);
    SpansStep(m, p, a, b, z, d);
    if b < z { SpansInOrder(m, b + 1, d); }
  }

  // ----- A run of strtok -------------------------------------------------------------

  /** What is left after n calls strtok(NULL, d), and what they returned. */
  function Calls(t: Scan, d: string, n: nat): (r: (Scan, seq<Option<nat>>))
    requires Ready(t)
    ensures Ready(r.0) && |r.1| == n
    decreases n
  {
    if n == 0 then (t, [])
    else
      var (t', token) := Strtok(t, d);
      var (end, rest) := Calls(t', d, n - 1);
      (end, [token] + rest)
  }

  /** m with a zero at the end of each span. */
  function Cut(m: string, spans: seq<Span>): (r: string)
    requires forall i :: 0 <= i < |spans| ==> spans[i].end < |m|
    ensures |r| == |m|
    decreases |spans|
  {
    if spans == [] then m else Cut(m[spans[0].end := '\0'], spans[1..])
  }

  lemma {:induction false} CutAt(m: string, spans: seq<Span>, k: nat)
    requires k < |m| && forall i :: 0 <= i < |spans| ==> spans[i].end < |m|
    ensures Cut(m, spans)[k] == if exists s :: s in spans && s.end == k then '\0' else m[k]
    decreases |spans|
  {
    if spans != [] {
      CutAt(m[spans[0].end := '\0'], spans[1..], k);
      assert spans == [spans[0]] + spans[1..];
    }
  }

  /** Two memories that agree from p on. */
  predicate AgreeFrom(m: string, m': string, p: nat) {
    |m'| == |m| && forall k :: p <= k < |m| ==> m'[k] == m[k]
  }

  lemma SameEnds(m: string, m': string, p: nat, d: string)
    requires Terminated(m, p) && AgreeFrom(m, m', p)
    ensures Terminated(m', p) && Nul(m', p) == Nul(m, p)
    ensures SkipDelims(m', p, d) == SkipDelims(m, p, d) && TokenEnd(m', p, d) == TokenEnd(m, p, d)
    decreases |m| - p
  {
  }

  lemma {:induction false} SameSpans(m: string, m': string, p: nat, d: string)
    requires Terminated(m, p) && AgreeFrom(m, m', p)
    ensures Terminated(m', p) && Spans(m', p, d) == Spans(m, p, d)
    decreases |m| - p
  {
    hide Nul, SkipDelims, TokenEnd, Terminated, Spans;
    var a, z := SkipDelims(m, p, d), Nul(m, p);
    NulIs(m, a, z);
    var b := TokenEnd(m, a, d);
    SameEnds(m, m', p, d);
    SameEnds(m, m', a, d);
    FirstSpan(m, p, a, b, z, d);
    SpansStep(m, p, a, b, z, d);
    SpansStep(m', p, a, b, z, d);
    if b < z { SameSpans(m, m', b + 1, d); }
  }

  lemma {:induction false} CallsAfterEnd(m: string, d: string, n: nat)
    ensures Calls(Scan(m, None), d, n).0 == Scan(m, None)
    ensures forall i :: 0 <= i < n ==> Calls(Scan(m, None), d, n).1[i] == None
    decreases n
  {
    if n > 0 { CallsAfterEnd(m, d, n - 1); }
  }

  /** One call, by where the first token lies. */
  lemma StrtokStep(m: string, p: nat, a: nat, b: nat, z: nat, d: string)
    requires Terminated(m, p) && z == Nul(m, p) && a == SkipDelims(m, p, d)
    requires Terminated(m, a) && b == TokenEnd(m, a, d)
    ensures a == z ==> Strtok(Scan(m, Some(p)), d) == (Scan(m, None), None)
    ensures a < z && b == z ==> Strtok(Scan(m, Some(p)), d) == (Scan(m, None), Some(a))
    ensures b < z ==> Strtok(Scan(m, Some(p)), d) == (Scan(m[b := '\0'], Some(b + 1)), Some(a))
  {
    hide Nul, SkipDelims, TokenEnd;
    FirstSpan(m, p, a, b, z, d);
  }

  /** A run strtok(s, d), strtok(NULL, d), ... of any length returns the tokens in order and
      NULL ever after, and has put a zero at the end of each token returned. */
  lemma {:induction false} RunYieldsTokens(m: string, p: nat, d: string, n: nat)
    requires Terminated(m, p)
    ensures var (spans, (end, tokens)) := (Spans(m, p, d), Calls(Scan(m, Some(p)), d, n));
      && (forall i :: 0 <= i < n ==> tokens[i] == if i < |spans| then Some(spans[i].start) else None)
      && end.mem == Cut(m, spans[..Min(n, |spans|)])
    decreases n
  {
    hide Nul, SkipDelims, TokenEnd, Terminated, Spans, Strtok;
    var a, z := SkipDelims(m, p, d), Nul(m, p);
    NulIs(m, a, z);
    var b := TokenEnd(m, a, d);
    FirstSpan(m, p, a, b, z, d);
    SpansStep(m, p, a, b, z, d);
    StrtokStep(m, p, a, b, z, d);
    if n > 0 {
      if b == z {
        CallsAfterEnd(m, d, n - 1);
        assert m[z := '\0'] == m;
      } else {
        var m' := m[b := '\0'];
        SameSpans(m, m', b + 1, d);
        RunYieldsTokens(m', b + 1, d, n - 1);
        var rest := Spans(m, b + 1, d);
        assert ([Span(a, b)] + rest)[..Min(n, 1 + |rest|)] == [Span(a, b)] + rest[..Min(n - 1, |rest|)];
      }
    }
  }

  /** Whatever number of calls has been made, memory has changed only at the ends of the
      tokens returned ... */
  lemma RunChangesEndsOnly(m: string, p: nat, d: string, n: nat, k: nat)
    requires Terminated(m, p) && k < |m|
    ensures var (spans, now) := (Spans(m, p, d), Calls(Scan(m, Some(p)), d, n).0.mem);
      |now| == |m| && now[k] == if exists s :: s in spans[..Min(n, |spans|)] && s.end == k then '\0' else m[k]
  {
    var spans := Spans(m, p, d);
    RunYieldsTokens(m, p, d, n);
    CutAt(m, spans[..Min(n, |spans|)], k);
  }

  /** ... and each of these tokens reads as its piece of the original text. */
  lemma RunKeepsTokens(m: string, p: nat, d: string, n: nat, i: nat)
    requires Terminated(m, p) && i < n && i < |Spans(m, p, d)|
    ensures var (s, now) := (Spans(m, p, d)[i], Calls(Scan(m, Some(p)), d, n).0.mem);
      Terminated(now, s.start) && s.start <= s.end && Text(now, s.start) == m[s.start..s.end]
  {
    hide Nul, SkipDelims, TokenEnd, Spans, Calls, Cut;
    var spans, now := Spans(m, p, d), Calls(Scan(m, Some(p)), d, n).0.mem;
    var done := spans[..Min(n, |spans|)];
    RunYieldsTokens(m, p, d, n);
    SpansInOrder(m, p, d);
    var s := spans[i];
    assert s in done;
    forall j | s.start <= j <= s.end ensures now[j] == if j == s.end then '\0' else m[j] {
      CutAt(m, done, j);
    }
    NulIs(now, s.start, s.end);
  }

  // ----- The code --------------------------------------------------------------------

  class Tokenizer {
    const mem: array<char>
    var next: Option<nat> // static in strtok

    ghost function State(): (r: Scan)
      reads this, mem
    {
      Scan(mem[..], next)
    }

    constructor (mem: array<char>)
      ensures this.mem == mem && next == None
    {
      this.mem, next := mem, None;
    }

    method strtok(str: Option<nat>, delim: string) returns (token: Option<nat>)
      requires if str.Some? then Terminated(mem[..], str.value) else Ready(State())
      modifies this, mem
      ensures (State(), token) == Strtok(Scan(old(mem[..]), if str.Some? then str else old(next)), delim)
    {
      if str.Some? { next := str; }
      if next.None? { return None; }
      var start := next.value;
      var at := SkipWhile(start, delim, true);
      if mem[at] == '\0' {
        next := None;
        return None;
      }
      var end := SkipWhile(at, delim, false);
      if mem[end] != '\0' {
        mem[end] := '\0';
        next := Some(end + 1);
      } else {
        next := None;
      }
      return Some(at);
    }

    /** The two loops of strtok: over delimiters, or over all but delimiters. */
    method SkipWhile(from: nat, delim: string, delims: bool) returns (at: nat)
      requires Terminated(mem[..], from)
      ensures at == if delims then SkipDelims(mem[..], from, delim) else TokenEnd(mem[..], from, delim)
    {
      at := from;
      while true
        invariant Terminated(mem[..], at)
        invariant SkipDelims(mem[..], at, delim) == SkipDelims(mem[..], from, delim) || !delims
        invariant TokenEnd(mem[..], at, delim) == TokenEnd(mem[..], from, delim) || delims
        decreases mem.Length - at
      {
        if mem[at] == '\0' { break; }
        var found := strchr(delim, mem[at]);
        if found.Some? != delims { break; }
        at := at + 1;
      }
    }
  }
}
