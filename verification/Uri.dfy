/** string_escape_uri and string_unescape_uri of src/fast_string.c (percent-encoding, section 2.1
    of RFC 3986). */
module Uri {

  type Text = seq<bv8>

  const PERCENT: bv8 := 37    // '%'
  const QUESTION: bv8 := 63   // '?'

  /** The escape map to use. */
  datatype Kind = URI | ARGS | HTML | REFRESH | MEMCACHED | MAIL_AUTH

  /** Word `k` of the map: one bit for each of 32 bytes. */
  function MapWord(kind: Kind, k: bv8): bv32
  {
    match kind
    case URI => if k == 1 then 0x80000029 else if k == 2 then 0 else if k == 3 then 0x80000000 else 0xffffffff
    case ARGS => if k == 1 then 0x80000829 else if k == 2 then 0 else if k == 3 then 0x80000000 else 0xffffffff
    case HTML => if k == 1 then 0x000000ad else if k == 2 then 0 else if k == 3 then 0x80000000 else 0xffffffff
    case REFRESH => if k == 1 then 0x00000085 else if k == 2 then 0 else if k == 3 then 0x80000000 else 0xffffffff
    case MEMCACHED => if k == 0 then 0xffffffff else if k == 1 then 0x00000021 else 0
    case MAIL_AUTH => if k == 0 then 0xffffffff else if k == 1 then 0x00000021 else 0
  }

  predicate Escapes(kind: Kind, c: bv8)
  {
    MapWord(kind, c >> 5) & ((1 as bv32) << (c & 0x1f)) != 0
  }

  /** The bytes that each kind of text must not contain. */
  predicate MustEscape(kind: Kind, c: bv8)
  {
    match kind
    case URI => c <= 32 || c == 35 || c == 37 || c == 63 || c >= 127
    case ARGS => c <= 32 || c == 35 || c == 37 || c == 43 || c == 63 || c >= 127
    case HTML => c <= 32 || c == 34 || c == 35 || c == 37 || c == 39 || c >= 127
    case REFRESH => c <= 32 || c == 34 || c == 39 || c >= 127
    case MEMCACHED => c <= 32 || c == 37
    case MAIL_AUTH => c <= 32 || c == 37
  }

  /** The maps have exactly their bits set. */
  lemma MapsAre(kind: Kind, c: bv8)
    ensures Escapes(kind, c) <==> MustEscape(kind, c)
  {
  }

  /** Only the map for refresh headers lets '%' through. */
  lemma PercentEscaped(kind: Kind)
    ensures Escapes(kind, PERCENT) <==> kind != REFRESH
  {
  }

  /** The digits that escaping writes are not themselves escaped. */
  lemma DigitsPlain(kind: Kind, c: bv8)
    requires 48 <= c <= 57 || 97 <= c <= 102
    ensures !Escapes(kind, c)
  {
    assert c >> 5 == 1 || c >> 5 == 3;
    if c <= 57 {
      assert c & 0x1f >= 16 && c & 0x1f <= 25;
    } else {
      assert c & 0x1f <= 6;
    }
  }

  // ---------- escaping ----------

  /** A byte below 16 as a hexadecimal digit. */
  function Digit(v: bv8): (c: bv8)
    requires v < 16
    ensures 48 <= c <= 57 || 97 <= c <= 102
  {
    if v < 10 then 48 + v else 97 + (v - 10)
  }

  function EscapedByte(kind: Kind, c: bv8): Text
  {
    if Escapes(kind, c) then [PERCENT, Digit(c >> 4), Digit(c & 0xf)] else [c]
  }

  function Escaped(kind: Kind, s: Text): Text
  {
    if s == [] then [] else EscapedByte(kind, s[0]) + Escaped(kind, s[1..])
  }

  function Count(kind: Kind, s: Text): nat
  {
    if s == [] then 0 else (if Escapes(kind, s[0]) then 1 else 0) + Count(kind, s[1..])
  }

  /** The number of bytes that the counting call reports tells the room that is needed. */
  lemma {:induction false} EscapedLength(kind: Kind, s: Text)
    ensures |Escaped(kind, s)| == |s| + 2 * Count(kind, s)
  {
    if s != [] { EscapedLength(kind, s[1..]); }
  }

  const HEX := "0123456789abcdef"

  predicate Is(c: bv8, x: char) { c as int == x as int }

  /** The positions in front of `i` whose bytes must be escaped. */
  ghost function Marks(kind: Kind, s: Text, i: nat): set<nat>
    requires i <= |s|
  {
    set j: nat | j < i && MustEscape(kind, s[j])
  }

  /** What escaping means in section 2.1 of RFC 3986: every byte stands, in order, for itself or, if
      it must be escaped, for a percent sign and two hexadecimal digits. */
  ghost predicate IsEscaped(kind: Kind, s: Text, t: Text)
  {
    && |t| == |s| + 2 * |Marks(kind, s, |s|)| && |HEX| == 16
    && forall i: nat {:trigger s[i]} :: i < |s| ==>
      var p := i + 2 * |Marks(kind, s, i)|;
      if MustEscape(kind, s[i]) then
        p + 2 < |t| && t[p] == 37 && Is(t[p + 1], HEX[s[i] as int / 16]) && Is(t[p + 2], HEX[s[i] as int % 16])
      else p < |t| && t[p] == s[i]
  }

  lemma DigitOf(v: bv8)
    requires v < 16
    ensures |HEX| == 16 && Is(Digit(v), HEX[v as int])
  {
    if v == 0 || v == 1 || v == 2 || v == 3 || v == 4 || v == 5 || v == 6 || v == 7 {
    } else if v == 8 || v == 9 || v == 10 || v == 11 {
    } else if v == 12 || v == 13 || v == 14 || v == 15 {
    }
  }

  lemma HighAndLow(c: bv8)
    ensures (c >> 4) as int == c as int / 16 && (c & 0xf) as int == c as int % 16
  {
    assert c == (c >> 4) * 16 + (c & 0xf);
  }

  lemma EscapedHead(kind: Kind, s: Text)
    requires s != []
    ensures Escaped(kind, s) == EscapedByte(kind, s[0]) + Escaped(kind, s[1..])
  {
  }

  lemma Associative<T>(a: seq<T>, b: seq<T>, c: seq<T>)
    ensures (a + b) + c == a + (b + c)
  {
  }

  lemma {:induction false} EscapedConcat(kind: Kind, s: Text, r: Text)
    ensures Escaped(kind, s + r) == Escaped(kind, s) + Escaped(kind, r)
  {
    if s == [] {
      assert s + r == r;
    } else {
      hide Escaped, EscapedByte;
      EscapedConcat(kind, s[1..], r);
      EscapedHead(kind, s);
      EscapedHead(kind, s + r);
      assert (s + r)[0] == s[0] && (s + r)[1..] == s[1..] + r;
      Associative(EscapedByte(kind, s[0]), Escaped(kind, s[1..]), Escaped(kind, r));
    }
  }

  lemma MarksStep(kind: Kind, s: Text, i: nat)
    requires i < |s|
    ensures |Marks(kind, s, i + 1)| == |Marks(kind, s, i)| + if MustEscape(kind, s[i]) then 1 else 0
  {
    hide MustEscape;
    var m, n := Marks(kind, s, i), Marks(kind, s, i + 1);
    if MustEscape(kind, s[i]) {
      assert n == m + {i} && i !in m;
    } else {
      assert n == m;
    }
  }

  lemma NoMarks(kind: Kind, s: Text)
    ensures |Marks(kind, s, 0)| == 0 && Escaped(kind, []) == []
  {
  }

  /** The escaped text of a front ends where the number of its marks says. */
  lemma {:induction false} EscapedFront(kind: Kind, s: Text, i: nat)
    requires i <= |s|
    ensures |Escaped(kind, s[..i])| == i + 2 * |Marks(kind, s, i)|
  {
    hide EscapedByte, MustEscape, Escaped, Marks;
    if i == 0 {
      NoMarks(kind, s);
      assert s[..0] == [];
    } else {
      EscapedFront(kind, s, i - 1);
      MarksStep(kind, s, i - 1);
      EscapedConcat(kind, s[..i - 1], [s[i - 1]]);
      EscapedOne(kind, s[i - 1]);
      assert s[..i] == s[..i - 1] + [s[i - 1]];
    }
  }

  lemma EscapedOne(kind: Kind, c: bv8)
    ensures Escaped(kind, [c]) == EscapedByte(kind, c) && |EscapedByte(kind, c)| == if MustEscape(kind, c) then 3 else 1
  {
    MapsAre(kind, c);
    hide Escapes, MustEscape;
    assert [c][1..] == [];
  }

  lemma ByteIs(kind: Kind, c: bv8)
    ensures |HEX| == 16 && EscapedByte(kind, c) != []
    ensures var b := EscapedByte(kind, c);
      if MustEscape(kind, c) then
        |b| == 3 && b[0] == 37 && Is(b[1], HEX[c as int / 16]) && Is(b[2], HEX[c as int % 16])
      else b == [c]
  {
    MapsAre(kind, c);
    hide Escapes, MustEscape, Digit, Is;
    HighAndLow(c);
    DigitOf(c >> 4);
    DigitOf(c & 0xf);
  }

  /** The escaped text is what escaping means. */
  lemma EscapedIs(kind: Kind, s: Text)
    ensures IsEscaped(kind, s, Escaped(kind, s))
  {
    hide EscapedByte, MustEscape, Escaped, Is, Marks;
    var t := Escaped(kind, s);
    EscapedFront(kind, s, |s|);
    assert s[..|s|] == s;
    DigitOf(0);
    forall i: nat {:trigger s[i]} | i < |s|
      ensures var p := i + 2 * |Marks(kind, s, i)|;
        if MustEscape(kind, s[i]) then
          p + 2 < |t| && t[p] == 37 && Is(t[p + 1], HEX[s[i] as int / 16]) && Is(t[p + 2], HEX[s[i] as int % 16])
        else p < |t| && t[p] == s[i]
    {
      EscapedAt(kind, s, i);
      ByteIs(kind, s[i]);
    }
  }

  lemma EscapedAt(kind: Kind, s: Text, i: nat)
    requires i < |s|
    ensures var t, b, p := Escaped(kind, s), EscapedByte(kind, s[i]), i + 2 * |Marks(kind, s, i)|;
      p + |b| <= |t| && t[p..p + |b|] == b
  {
    hide EscapedByte, MustEscape, Escaped, Marks;
    EscapedFront(kind, s, i);
    EscapedConcat(kind, s[..i], s[i..]);
    EscapedConcat(kind, [s[i]], s[i + 1..]);
    EscapedOne(kind, s[i]);
    assert s == s[..i] + s[i..] && s[i..] == [s[i]] + s[i + 1..];
  }

  /** string_escape_uri without a destination: the number of bytes to escape. */
  method CountEscapes(src: Text, kind: Kind) returns (n: nat)
    ensures n == Count(kind, src) == |Marks(kind, src, |src|)| && |Escaped(kind, src)| == |src| + 2 * n
  {
    EscapedFront(kind, src, |src|);
    assert src[..|src|] == src;
    n := 0;
    assert src[0..] == src;
    for i := 0 to |src|
      invariant n + Count(kind, src[i..]) == Count(kind, src)
    {
      assert src[i..][1..] == src[i + 1..];
      if Escapes(kind, src[i]) {
        n := n + 1;
      }
    }
    EscapedLength(kind, src);
  }

  /** string_escape_uri, into a buffer that is large enough. */
  method Escape(src: Text, kind: Kind, dst: array<bv8>) returns (n: nat)
    requires dst.Length >= |src| + 2 * Count(kind, src)
    modifies dst
    ensures n <= dst.Length && dst[..n] == Escaped(kind, src) && IsEscaped(kind, src, dst[..n])
  {
    hide Escapes, EscapedByte, IsEscaped;
    EscapedIs(kind, src);
    n := 0;
    EscapedLength(kind, src);
    assert src[0..] == src && dst[..0] == [];
    for i := 0 to |src|
      invariant n + |Escaped(kind, src[i..])| == |Escaped(kind, src)| <= dst.Length
      invariant dst[..n] + Escaped(kind, src[i..]) == Escaped(kind, src)
    {
      EscapedStep(kind, src, i, dst[..n]);
      n := PutEscaped(dst, n, kind, src[i]);
    }
  }

  method PutEscaped(dst: array<bv8>, n: nat, kind: Kind, c: bv8) returns (n': nat)
    requires n + |EscapedByte(kind, c)| <= dst.Length
    modifies dst
    ensures n' == n + |EscapedByte(kind, c)| && dst[..n'] == old(dst[..n]) + EscapedByte(kind, c)
  {
    hide Escapes;
    if Escapes(kind, c) {
      dst[n], dst[n + 1], dst[n + 2] := PERCENT, Digit(c >> 4), Digit(c & 0xf);
      n' := n + 3;
    } else {
      dst[n] := c;
      n' := n + 1;
    }
  }

  lemma EscapedStep(kind: Kind, s: Text, i: nat, done: Text)
    requires i < |s| && done + Escaped(kind, s[i..]) == Escaped(kind, s)
    ensures done + EscapedByte(kind, s[i]) + Escaped(kind, s[i + 1..]) == Escaped(kind, s)
    ensures |Escaped(kind, s[i..])| == |EscapedByte(kind, s[i])| + |Escaped(kind, s[i + 1..])|
  {
    assert s[i..][1..] == s[i + 1..];
  }

  // ---------- unescaping ----------

  /** Which of the two flag bits of the type are set. */
  datatype Mode = Mode(uri: bool, redirect: bool)

  const PLAIN := Mode(false, false)

  /** Between a '%' and the end of its two digits; `first` is the first digit. */
  datatype State = Usual | Quoted | Second(first: bv8)

  predicate IsDigit(c: bv8) { 48 <= c <= 57 }

  predicate IsLetter(c: bv8) { 97 <= c | 0x20 <= 102 }

  predicate IsHex(c: bv8) { IsDigit(c) || IsLetter(c) }

  function Value(c: bv8): bv8
    requires IsHex(c)
  {
    if IsDigit(c) then c - 48 else (c | 0x20) - 97 + 10
  }

  function Joined(high: bv8, low: bv8): bv8 { (high << 4) + low }

  predicate Started(st: State) { st.Second? ==> IsHex(st.first) }

  /** What one byte does: the next state, the bytes written, and whether to stop. */
  datatype Effect = Effect(next: State, out: Text, stop: bool)

  function Next(mode: Mode, st: State, c: bv8): Effect
    requires Started(st)
  {
    match st
    case Usual =>
      if c == QUESTION && (mode.uri || mode.redirect) then Effect(Usual, [c], true)
      else if c == PERCENT then Effect(Quoted, [], false)
      else Effect(Usual, [c], false)
    case Quoted =>
      if IsHex(c) then Effect(Second(c), [], false) else Effect(Usual, [c], false)
    case Second(first) =>
      if !IsHex(c) then Effect(Usual, [], false)
      else
        var b := Joined(Value(first), Value(c));
        // only a pair that ends in a letter can stop at a question mark
        if IsLetter(c) && (mode.uri || mode.redirect) && b == QUESTION then Effect(Usual, [b], true)
        else if mode.redirect && (IsDigit(c) || !mode.uri) && !(PERCENT < b < 127) then Effect(Usual, [PERCENT, first, c], false)
        else Effect(Usual, [b], false)
  }

  datatype Result = Result(out: Text, used: nat)

  /** The bytes written and the number of bytes read from state `st`. */
  function Run(mode: Mode, st: State, s: Text): (r: Result)
    requires Started(st)
    ensures r.used <= |s|
    decreases |s|
  {
    if s == [] then Result([], 0)
    else
      var e := Next(mode, st, s[0]);
      if e.stop then Result(e.out, 1)
      else var r := Run(mode, e.next, s[1..]); Result(e.out + r.out, 1 + r.used)
  }

  /** The value of a hexadecimal digit, or 255. */
  function HexOf(c: bv8): bv8
  {
    if 48 <= c <= 57 then c - 48 else if 65 <= c <= 70 then c - 55 else if 97 <= c <= 102 then c - 87 else 255
  }

  /** `out` in front of what follows `used` bytes later. */
  function Then(out: Text, used: nat, rest: Result): Result
  {
    Result(out + rest.out, used + rest.used)
  }

  /** What unescaping means, one percent sequence at a time.  A '%' without two digits behind it is
      dropped, together with what was read as digits.  With a flag the text ends at a plain '?', or
      at one that was escaped with a letter; when redirecting, bytes that are not safe stay escaped,
      unless both flags are set and the second digit is a letter. */
  function Unescaped(mode: Mode, s: Text): Result
    decreases |s|
  {
    var flag := mode.uri || mode.redirect;
    if s == [] then Result([], 0)
    else if s[0] == 63 && flag then Result([63], 1)
    else if s[0] != 37 then Then([s[0]], 1, Unescaped(mode, s[1..]))
    else if |s| == 1 then Result([], 1)
    else if HexOf(s[1]) == 255 then Then([s[1]], 2, Unescaped(mode, s[2..]))
    else if |s| == 2 then Result([], 2)
    else if HexOf(s[2]) == 255 then Then([], 3, Unescaped(mode, s[3..]))
    else
      var b := 16 * HexOf(s[1]) + HexOf(s[2]);
      if b == 63 && s[2] > 57 && flag then Result([63], 3)
      else if mode.redirect && (s[2] <= 57 || !mode.uri) && (b <= 37 || b >= 127) then Then(s[..3], 3, Unescaped(mode, s[3..]))
      else Then([b], 3, Unescaped(mode, s[3..]))
  }

  lemma HexAgrees(c: bv8)
    ensures HexOf(c) != 255 <==> IsHex(c)
    ensures IsHex(c) ==> Value(c) == HexOf(c) < 16 && (IsLetter(c) <==> c > 57) && (IsDigit(c) <==> c <= 57)
  {
  }

  lemma JoinedIs(x: bv8, y: bv8)
    requires x < 16 && y < 16
    ensures Joined(x, y) == 16 * x + y
  {
  }

  lemma RunFirst(mode: Mode, st: State, s: Text)
    requires Started(st) && s != []
    ensures var e := Next(mode, st, s[0]);
      Run(mode, st, s) == if e.stop then Result(e.out, 1) else Then(e.out, 1, Run(mode, e.next, s[1..]))
  {
  }

  /** The state machine computes what unescaping means. */
  lemma {:induction false} RunIsUnescaped(mode: Mode, s: Text)
    ensures Run(mode, Usual, s) == Unescaped(mode, s)
    decreases |s|
  {
    hide Run, IsHex, IsDigit, IsLetter, Value, HexOf, Joined;
    if s == [] {
      NothingToRun(mode, Usual);
    } else {
      RunFirst(mode, Usual, s);
      if s[0] != PERCENT {
        if !Next(mode, Usual, s[0]).stop {
          RunIsUnescaped(mode, s[1..]);
        }
      } else if |s| == 1 {
        NothingToRun(mode, Quoted);
      } else {
        HexAgrees(s[1]);
        RunFirst(mode, Quoted, s[1..]);
        assert s[1..][1..] == s[2..];
        if !IsHex(s[1]) {
          RunIsUnescaped(mode, s[2..]);
        } else if |s| == 2 {
          NothingToRun(mode, Second(s[1]));
        } else {
          SequenceIsUnescaped(mode, s);
        }
      }
    }
  }

  lemma NothingToRun(mode: Mode, st: State)
    requires Started(st)
    ensures Run(mode, st, []) == Result([], 0)
  {
  }

  lemma {:induction false} SequenceIsUnescaped(mode: Mode, s: Text)
    requires |s| >= 3 && s[0] == PERCENT && IsHex(s[1])
    ensures Then([], 2, Run(mode, Second(s[1]), s[2..])) == Unescaped(mode, s)
    decreases |s|, 0
  {
    hide Run, IsHex, IsDigit, IsLetter, Value, HexOf, Joined;
    HexAgrees(s[1]);
    HexAgrees(s[2]);
    RunFirst(mode, Second(s[1]), s[2..]);
    assert s[2..][1..] == s[3..] && s[..3] == [PERCENT, s[1], s[2]];
    if IsHex(s[2]) {
      JoinedIs(HexOf(s[1]), HexOf(s[2]));
    }
    if !Next(mode, Second(s[1]), s[2]).stop {
      RunIsUnescaped(mode, s[3..]);
    }
  }

  /** The bytes that the quoting state holds back. */
  function Pending(st: State): nat
  {
    match st case Usual => 0 case Quoted => 1 case Second(_) => 2
  }

  /** Never more is written than was read, so both may share one buffer. */
  lemma {:induction false} NeverLonger(mode: Mode, st: State, s: Text)
    requires Started(st)
    ensures |Run(mode, st, s).out| <= Run(mode, st, s).used + Pending(st)
    decreases |s|
  {
    if s != [] && !Next(mode, st, s[0]).stop {
      NeverLonger(mode, Next(mode, st, s[0]).next, s[1..]);
    }
  }

  /** The URI flag only makes the run stop early, after a question mark. */
  lemma {:induction false} StopsAtQuestion(st: State, s: Text)
    requires Started(st)
    ensures var r, all := Run(Mode(true, false), st, s), Run(PLAIN, st, s);
      && all.used == |s| && r.out <= all.out
      && (r == all || (r.out != [] && r.out[|r.out| - 1] == QUESTION))
    decreases |s|
  {
    hide Next, Value, IsHex;
    if s != [] {
      var e := Next(Mode(true, false), st, s[0]);
      SameEffect(st, s[0]);
      NextStarted(PLAIN, st, s[0]);
      if !e.stop {
        StopsAtQuestion(e.next, s[1..]);
      }
      StopsAtQuestion(Next(PLAIN, st, s[0]).next, s[1..]);
    }
  }

  lemma SameEffect(st: State, c: bv8)
    requires Started(st)
    ensures var e, f := Next(Mode(true, false), st, c), Next(PLAIN, st, c);
      !f.stop && e.out == f.out && e.next == f.next && (e.stop ==> e.out == [QUESTION])
  {
    hide Value, IsHex, Joined;
  }

  lemma RunStep(mode: Mode, st: State, src: Text, i: nat, done: Text, all: Result)
    requires Started(st) && i < |src|
    requires all.out == done + Run(mode, st, src[i..]).out && all.used == i + Run(mode, st, src[i..]).used
    ensures var e := Next(mode, st, src[i]);
      && Started(e.next)
      && (e.stop ==> all.out == done + e.out && all.used == i + 1)
      && (!e.stop ==> all.out == done + e.out + Run(mode, e.next, src[i + 1..]).out
                      && all.used == i + 1 + Run(mode, e.next, src[i + 1..]).used)
  {
    hide Next;
    assert src[i..][1..] == src[i + 1..];
    NextStarted(mode, st, src[i]);
  }

  lemma NextStarted(mode: Mode, st: State, c: bv8)
    requires Started(st)
    ensures Started(Next(mode, st, c).next)
    ensures |Next(mode, st, c).out| + Pending(Next(mode, st, c).next) <= Pending(st) + 1
    ensures Next(mode, st, c).stop ==> Next(mode, st, c).next == Usual
    ensures Next(mode, st, c).next.Second? ==> Next(mode, st, c).next.first == c
  {
  }

  lemma RunNothing(mode: Mode, st: State)
    requires Started(st)
    ensures Run(mode, st, []) == Result([], 0)
  {
  }

  /** `after` is `before` with the bytes of `e` written at `d`. */
  ghost predicate Wrote(before: Text, after: Text, d: nat, e: Effect)
  {
    d + |e.out| <= |before| && after == before[..d] + e.out + before[d + |e.out|..]
  }

  /** The first case of the switch: outside a quoted byte. */
  method UsualByte(a: array<bv8>, d: nat, ch: bv8, mode: Mode) returns (d': nat, quoted: bool, stop: bool)
    requires d + |Next(mode, Usual, ch).out| <= a.Length
    modifies a
    ensures var e := Next(mode, Usual, ch);
      Wrote(old(a[..]), a[..], d, e) && d' == d + |e.out| && stop == e.stop && e.next == if quoted then Quoted else Usual
  {
    d', quoted, stop := d, false, false;
    if ch == QUESTION && (mode.uri || mode.redirect) {
      a[d] := ch;
      return d + 1, false, true;
    }
    if ch == PERCENT {
      quoted := true;
    } else {
      a[d] := ch;
      d' := d + 1;
    }
  }

  /** The second case: after '%'.  `decoded` is the value of a first digit. */
  method QuotedByte(a: array<bv8>, d: nat, ch: bv8, mode: Mode) returns (d': nat, second: bool, decoded: bv8)
    requires d + |Next(mode, Quoted, ch).out| <= a.Length
    modifies a
    ensures var e := Next(mode, Quoted, ch);
      && Wrote(old(a[..]), a[..], d, e) && d' == d + |e.out| && !e.stop
      && e.next == (if second then Second(ch) else Usual) && second == IsHex(ch) && (second ==> decoded == Value(ch))
  {
    d', second, decoded := d, false, 0;
    if IsHex(ch) {
      decoded, second := Value(ch), true;
    } else {
      a[d] := ch;
      d' := d + 1;
    }
  }

  method PutByte(a: array<bv8>, d: nat, c: bv8)
    requires d < a.Length
    modifies a
    ensures a[..] == old(a[..d]) + [c] + old(a[d + 1..])
  {
    a[d] := c;
  }

  /** Puts back the quoted byte that ends at `s`. */
  method PutQuoted(a: array<bv8>, d: nat, s: nat)
    requires 2 <= s <= a.Length && d + 2 < a.Length && (d + 3 <= s || s <= d)
    modifies a
    ensures a[..] == old(a[..d]) + [PERCENT, old(a[s - 2]), old(a[s - 1])] + old(a[d + 3..])
  {
    a[d] := PERCENT;
    a[d + 1] := a[s - 2];
    a[d + 2] := a[s - 1];
  }

  /** The third case: after '%' and a first digit, which is the byte before position `s - 1`. */
  method SecondByte(a: array<bv8>, d: nat, s: nat, decoded: bv8, mode: Mode) returns (d': nat, stop: bool)
    requires 2 <= s <= a.Length && (d + 3 <= s || s <= d) && IsHex(a[s - 2]) && decoded == Value(a[s - 2])
    requires d + |Next(mode, Second(a[s - 2]), a[s - 1]).out| <= a.Length
    modifies a
    ensures var e := Next(mode, Second(old(a[s - 2])), old(a[s - 1]));
      Wrote(old(a[..]), a[..], d, e) && d' == d + |e.out| && stop == e.stop && e.next == Usual
  {
    hide Joined, Value, IsHex, IsLetter, IsDigit;
    var ch := a[s - 1];
    d', stop := d, false;
    if IsHex(ch) {
      var b := Joined(decoded, Value(ch));
      if IsLetter(ch) && (mode.uri || mode.redirect) && b == QUESTION {
        PutByte(a, d, b);
        return d + 1, true;
      }
      if mode.redirect && (IsDigit(ch) || !mode.uri) && !(PERCENT < b < 127) {
        PutQuoted(a, d, s);
        d' := d + 3;
      } else {
        PutByte(a, d, b);
        d' := d + 1;
      }
    }
  }

  /** One turn of the loop. */
  method OneByte(a: array<bv8>, d: nat, s: nat, state: nat, decoded: bv8, mode: Mode, ghost st: State)
    returns (d': nat, state': nat, decoded': bv8, stop: bool)
    requires Started(st) && state == Pending(st) && 1 <= s <= a.Length && d + |Next(mode, st, a[s - 1]).out| <= a.Length
    requires st.Second? ==> s >= 2 && (d + 3 <= s || s <= d) && a[s - 2] == st.first && decoded == Value(st.first)
    modifies a
    ensures var e := Next(mode, st, old(a[s - 1]));
      && Wrote(old(a[..]), a[..], d, e) && d' == d + |e.out| && stop == e.stop && state' == Pending(e.next)
      && Started(e.next) && (e.next.Second? ==> e.next.first == old(a[s - 1]) && decoded' == Value(e.next.first))
  {
    hide Next, Value, IsHex, Wrote;
    NextStarted(mode, st, a[s - 1]);
    d', state', decoded', stop := d, state, decoded, false;
    if state == 0 {
      var quoted;
      d', quoted, stop := UsualByte(a, d, a[s - 1], mode);
      state' := if quoted then 1 else 0;
    } else if state == 1 {
      var second;
      d', second, decoded' := QuotedByte(a, d, a[s - 1], mode);
      state' := if second then 2 else 0;
    } else {
      d', stop := SecondByte(a, d, s, decoded, mode);
      state' := 0;
    }
  }

  /** The destination is at or before the source, or behind it with room for the result. */
  ghost predicate HasRoom(was: Text, dst: nat, src: nat, size: nat, mode: Mode)
    requires src + size <= |was|
  {
    dst <= src || (src + size <= dst && dst + |Run(mode, Usual, was[src..src + size]).out| <= |was|)
  }

  /** The bytes up to `s` have been read, and what they give is written up to `d`. */
  ghost predicate Reading(was: Text, now: Text, dst: nat, d: nat, src: nat, size: nat, s: nat, mode: Mode, st: State, stop: bool)
  {
    && src <= s <= src + size <= |was| == |now| && HasRoom(was, dst, src, size, mode)
    && dst <= d <= |was| && d + Pending(st) <= dst + (s - src) && Started(st) && (stop ==> st == Usual)
    && now[..dst] == was[..dst] && now[d..] == was[d..]
    && (st.Second? ==> s > src && st.first == was[s - 1])
    && var all, text := Run(mode, Usual, was[src..src + size]), was[src..src + size];
      if stop then all.out == now[dst..d] && all.used == s - src
      else all.out == now[dst..d] + Run(mode, st, text[s - src..]).out && all.used == s - src + Run(mode, st, text[s - src..]).used
  }

  lemma RoomToWrite(was: Text, now: Text, dst: nat, d: nat, src: nat, size: nat, s: nat, mode: Mode, st: State)
    requires Reading(was, now, dst, d, src, size, s, mode, st, false) && s < src + size
    ensures d + |Next(mode, st, was[s]).out| <= |was|
  {
    hide Run, Next, Value, IsHex;
    var text := was[src..src + size];
    assert text[s - src] == was[s];
    NextStarted(mode, st, was[s]);
    RunStep(mode, st, text, s - src, now[dst..d], Run(mode, Usual, text));
  }

  /** The bytes still to read, and those held back, are as they were. */
  lemma Unread(was: Text, now: Text, dst: nat, d: nat, src: nat, size: nat, s: nat, mode: Mode, st: State)
    requires Reading(was, now, dst, d, src, size, s, mode, st, false) && s < src + size
    ensures s < |was| == |now| && now[s] == was[s] && d + |Next(mode, st, was[s]).out| <= |was|
    ensures st.Second? ==> s > src && now[s - 1] == st.first && (d + 3 <= s + 1 || s < d)
  {
    hide Run, Next, Value, IsHex;
    RoomToWrite(was, now, dst, d, src, size, s, mode, st);
    assert s < d || now[d..][s - d] == was[d..][s - d];
    assert s < d ==> dst > s && now[..dst][s] == was[..dst][s];
    if st.Second? {
      assert s <= d || now[d..][s - 1 - d] == was[d..][s - 1 - d];
      assert s < d ==> now[..dst][s - 1] == was[..dst][s - 1];
    }
  }

  lemma ReadingStep(was: Text, before: Text, after: Text, dst: nat, d: nat, src: nat, size: nat, s: nat, mode: Mode, st: State)
    requires Reading(was, before, dst, d, src, size, s, mode, st, false) && s < src + size
    requires Wrote(before, after, d, Next(mode, st, was[s]))
    ensures var e := Next(mode, st, was[s]); Reading(was, after, dst, d + |e.out|, src, size, s + 1, mode, e.next, e.stop)
  {
    hide Run, Next, Value, IsHex;
    var e := Next(mode, st, was[s]);
    var text := was[src..src + size];
    NextStarted(mode, st, was[s]);
    RunStep(mode, st, text, s - src, before[dst..d], Run(mode, Usual, text));
    Written(was, before, after, dst, d, e);
  }

  lemma Written(was: Text, before: Text, after: Text, dst: nat, d: nat, e: Effect)
    requires dst <= d <= |was| == |before| && before[..dst] == was[..dst] && before[d..] == was[d..] && Wrote(before, after, d, e)
    ensures var n := d + |e.out|;
      n <= |was| == |after| && after[..dst] == was[..dst] && after[n..] == was[n..] && after[dst..n] == before[dst..d] + e.out
  {
    var n := d + |e.out|;
    assert after[n..] == before[n..] == before[d..][|e.out|..];
    assert after[..dst] == before[..dst];
  }

  /** string_unescape_uri: `size` bytes at `src` are unescaped to `dst`, which is at or before
      `src`, or behind the bytes to read with room for the result. */
  method Unescape(a: array<bv8>, dst: nat, src: nat, size: nat, mode: Mode) returns (d: nat, s: nat)
    requires src + size <= a.Length && HasRoom(a[..], dst, src, size, mode)
    modifies a
    ensures dst <= d <= dst + size && src <= s <= src + size && d <= a.Length
    ensures var r := Unescaped(mode, old(a[src..src + size]));
      a[dst..d] == r.out && s == src + r.used
    ensures a[..dst] == old(a[..dst]) && a[d..] == old(a[d..])
  {
    hide Run, Next, Value, IsHex, Wrote, Reading, Unescaped;
    RunIsUnescaped(mode, a[src..src + size]);
    ghost var st, was := Usual, a[..];
    d, s := dst, src;
    var state, decoded, stop := 0, 0 as bv8, false;
    ReadingStarts(was, dst, src, size, mode);
    while s < src + size && !stop
      invariant Reading(was, a[..], dst, d, src, size, s, mode, st, stop)
      invariant state == Pending(st) && Started(st) && (st.Second? ==> decoded == Value(st.first))
      invariant s <= src + size
      decreases src + size - s
    {
      ghost var before := a[..];
      Unread(was, before, dst, d, src, size, s, mode, st);
      s := s + 1;
      ghost var d0 := d;
      d, state, decoded, stop := OneByte(a, d, s, state, decoded, mode, st);
      ReadingStep(was, before, a[..], dst, d0, src, size, s - 1, mode, st);
      st := Next(mode, st, was[s - 1]).next;
    }
    ReadingEnds(was, a[..], dst, d, src, size, s, mode, st, stop);
  }

  lemma ReadingStarts(was: Text, dst: nat, src: nat, size: nat, mode: Mode)
    requires src + size <= |was| && HasRoom(was, dst, src, size, mode) && dst <= |was|
    ensures Reading(was, was, dst, dst, src, size, src, mode, Usual, false)
  {
    hide Run;
    assert was[src..src + size][0..] == was[src..src + size];
  }

  lemma ReadingEnds(was: Text, now: Text, dst: nat, d: nat, src: nat, size: nat, s: nat, mode: Mode, st: State, stop: bool)
    requires Reading(was, now, dst, d, src, size, s, mode, st, stop) && (s == src + size || stop)
    ensures dst <= d <= dst + size && src <= s <= src + size && d <= |now| == |was|
    ensures now[dst..d] == Run(mode, Usual, was[src..src + size]).out && s == src + Run(mode, Usual, was[src..src + size]).used
    ensures now[..dst] == was[..dst] && now[d..] == was[d..]
  {
    hide Run;
    if !stop {
      assert was[src..src + size][size..] == [];
      RunNothing(mode, st);
    }
  }

  // ---------- escaping and unescaping ----------

  /** What unescaping makes of an escaped text. */
  function Back(kind: Kind, s: Text): Text
  {
    Run(PLAIN, Usual, Escaped(kind, s)).out
  }

  lemma RunCons(st: State, c: bv8, s: Text)
    requires Started(st)
    ensures var e := Next(PLAIN, st, c);
      Started(e.next) && Run(PLAIN, st, [c] + s).out == e.out + Run(PLAIN, e.next, s).out
  {
    hide Value, IsHex;
    NextStarted(PLAIN, st, c);
    assert ([c] + s)[1..] == s;
  }

  lemma DigitValue(v: bv8)
    requires v < 16
    ensures IsHex(Digit(v)) && Value(Digit(v)) == v && Digit(v) != PERCENT
  {
  }

  lemma Halves(c: bv8)
    ensures c >> 4 < 16 && c & 0xf < 16 && Joined(c >> 4, c & 0xf) == c
  {
  }

  lemma PercentIsNoDigit()
    ensures !IsHex(PERCENT)
  {
  }

  /** A pair of digits after '%'. */
  lemma RunPair(x: bv8, y: bv8, s: Text)
    requires IsHex(x) && IsHex(y)
    ensures Run(PLAIN, Usual, [PERCENT, x, y] + s).out == [Joined(Value(x), Value(y))] + Run(PLAIN, Usual, s).out
  {
    hide Run, Value, IsHex, Joined;
    assert [PERCENT, x, y] + s == [PERCENT] + ([x] + ([y] + s));
    RunCons(Usual, PERCENT, [x] + ([y] + s));
    RunCons(Quoted, x, [y] + s);
    RunCons(Second(x), y, s);
  }

  lemma RunOther(c: bv8, s: Text)
    requires c != PERCENT
    ensures Run(PLAIN, Usual, [c] + s).out == [c] + Run(PLAIN, Usual, s).out
  {
    hide Run, Value, IsHex;
    RunCons(Usual, c, s);
  }

  /** One byte that is escaped, or is not '%', comes back. */
  lemma BackByte(kind: Kind, c: bv8, s: Text)
    requires Escapes(kind, c) || c != PERCENT
    ensures Run(PLAIN, Usual, EscapedByte(kind, c) + s).out == [c] + Run(PLAIN, Usual, s).out
  {
    hide Escapes, Run, Value, IsHex, Joined, Digit;
    if Escapes(kind, c) {
      Halves(c);
      DigitValue(c >> 4);
      DigitValue(c & 0xf);
      RunPair(Digit(c >> 4), Digit(c & 0xf), s);
    } else {
      RunOther(c, s);
    }
  }

  /** Unescaping undoes escaping when every '%' is escaped or there is none. */
  lemma {:induction false} RoundTrip(kind: Kind, s: Text)
    requires Escapes(kind, PERCENT) || PERCENT !in s
    ensures Back(kind, s) == s
  {
    hide Escapes, EscapedByte;
    if s != [] {
      BackByte(kind, s[0], Escaped(kind, s[1..]));
      RoundTrip(kind, s[1..]);
    }
  }

  // ---------- when the map lets '%' through ----------

  /** A measure that unescaping an unescaped '%' makes smaller. */
  function Weight(kind: Kind, s: Text): nat
  {
    if s == [] then 0
    else (if s[0] == PERCENT then 2 else if Escapes(kind, s[0]) then 3 else 1) + Weight(kind, s[1..])
  }

  lemma WeightCons(kind: Kind, c: bv8, s: Text)
    ensures Weight(kind, [c] + s) == (if c == PERCENT then 2 else if Escapes(kind, c) then 3 else 1) + Weight(kind, s)
  {
    assert ([c] + s)[1..] == s;
  }

  lemma WeightDigits(kind: Kind, c: bv8, s: Text)
    ensures Weight(kind, [Digit(c >> 4), Digit(c & 0xf)] + s) == 2 + Weight(kind, s)
  {
    hide Escapes, Weight, Digit;
    var x, y := Digit(c >> 4), Digit(c & 0xf);
    assert [x, y] + s == [x] + ([y] + s);
    DigitsPlain(kind, x);
    DigitsPlain(kind, y);
    WeightCons(kind, x, [y] + s);
    WeightCons(kind, y, s);
  }

  lemma RunDigits(c: bv8, s: Text)
    ensures Run(PLAIN, Usual, [Digit(c >> 4), Digit(c & 0xf)] + s).out == [Digit(c >> 4), Digit(c & 0xf)] + Run(PLAIN, Usual, s).out
  {
    hide Run, Digit;
    var x, y := Digit(c >> 4), Digit(c & 0xf);
    assert [x, y] + s == [x] + ([y] + s);
    RunOther(x, [y] + s);
    RunOther(y, s);
  }

  lemma EscapedCons(kind: Kind, c: bv8, s: Text)
    ensures Escaped(kind, [c] + s) == EscapedByte(kind, c) + Escaped(kind, s)
  {
    assert ([c] + s)[1..] == s;
  }

  /** A plain byte that is no digit follows an unescaped '%': the '%' is lost. */
  lemma AfterPercentPlain(kind: Kind, c: bv8, s: Text)
    requires !Escapes(kind, PERCENT) && !Escapes(kind, c) && !IsHex(c)
    ensures Back(kind, [PERCENT] + ([c] + s)) == [c] + Back(kind, s)
  {
    hide Run, Escaped, Escapes, Value, IsHex;
    var e := Escaped(kind, s);
    EscapedCons(kind, PERCENT, [c] + s);
    EscapedCons(kind, c, s);
    RunCons(Usual, PERCENT, [c] + e);
    RunCons(Quoted, c, e);
  }

  /** An escaped byte follows an unescaped '%': it stays escaped. */
  lemma AfterPercentEscaped(kind: Kind, c: bv8, s: Text)
    requires !Escapes(kind, PERCENT) && Escapes(kind, c)
    ensures Back(kind, [PERCENT] + ([c] + s)) == [PERCENT] + ([Digit(c >> 4), Digit(c & 0xf)] + Back(kind, s))
  {
    hide Run, Escaped, Escapes, Value, IsHex, Digit;
    var e, d := Escaped(kind, s), [Digit(c >> 4), Digit(c & 0xf)];
    EscapedCons(kind, PERCENT, [c] + s);
    EscapedCons(kind, c, s);
    assert [PERCENT] + (EscapedByte(kind, c) + e) == [PERCENT] + ([PERCENT] + (d + e));
    PercentIsNoDigit();
    RunCons(Usual, PERCENT, [PERCENT] + (d + e));
    RunCons(Quoted, PERCENT, d + e);
    RunDigits(c, e);
  }

  /** A digit and the end follow an unescaped '%', or the end alone: nothing is left. */
  lemma AfterPercentEnd(kind: Kind, c: bv8)
    requires !Escapes(kind, PERCENT)
    ensures Back(kind, [PERCENT]) == []
    ensures !Escapes(kind, c) && IsHex(c) ==> Back(kind, [PERCENT] + [c]) == []
  {
    hide Run, Escaped, Escapes, Value, IsHex;
    assert [PERCENT] + [] == [PERCENT] && [c] + [] == [c];
    EscapedCons(kind, PERCENT, []);
    EscapedCons(kind, PERCENT, [c]);
    EscapedCons(kind, c, []);
    assert Escaped(kind, []) == [] by { NothingEscaped(kind); }
    RunNothing(PLAIN, Quoted);
    RunCons(Usual, PERCENT, []);
    if !Escapes(kind, c) && IsHex(c) {
      RunCons(Usual, PERCENT, [c]);
      RunCons(Quoted, c, []);
      RunNothing(PLAIN, Second(c));
    }
  }

  lemma NothingEscaped(kind: Kind)
    ensures Escaped(kind, []) == [] && Back(kind, []) == [] && Weight(kind, []) == 0
  {
  }

  /** What follows an unescaped '%' and a digit. */
  lemma AfterDigit(kind: Kind, c: bv8, x: bv8, s: Text)
    requires !Escapes(kind, PERCENT) && !Escapes(kind, c) && IsHex(c)
    ensures Back(kind, [PERCENT] + ([c] + ([x] + s))) ==
      if Escapes(kind, x) then [Digit(x >> 4), Digit(x & 0xf)] + Back(kind, s)
      else if IsHex(x) then [Joined(Value(c), Value(x))] + Back(kind, s)
      else Back(kind, s)
  {
    hide Run, Escaped, Escapes, Value, IsHex, Digit, Joined;
    var e := Escaped(kind, s);
    var after := EscapedByte(kind, x) + e;
    EscapedCons(kind, PERCENT, [c] + ([x] + s));
    EscapedCons(kind, c, [x] + s);
    EscapedCons(kind, x, s);
    RunCons(Usual, PERCENT, [c] + after);
    RunCons(Quoted, c, after);
    if Escapes(kind, x) {
      var d := [Digit(x >> 4), Digit(x & 0xf)];
      assert after == [PERCENT] + (d + e);
      PercentIsNoDigit();
      RunCons(Second(c), PERCENT, d + e);
      RunDigits(x, e);
    } else {
      RunCons(Second(c), x, e);
    }
  }

  /** Every '%' that is let through costs weight. */
  lemma {:induction false} Loses(kind: Kind, s: Text)
    requires !Escapes(kind, PERCENT)
    ensures Weight(kind, Back(kind, s)) + (if PERCENT in s then 1 else 0) <= Weight(kind, s)
    decreases |s|
  {
    hide Run, Back, Escaped, Escapes, Value, IsHex, Digit, Joined, Weight;
    NothingEscaped(kind);
    if s != [] {
      var c, t := s[0], s[1..];
      assert s == [c] + t;
      WeightCons(kind, c, t);
      if c != PERCENT {
        BackCons(kind, c, t);
        WeightCons(kind, c, Back(kind, t));
        Loses(kind, t);
      } else if t == [] {
        AfterPercentEnd(kind, 0);
        assert s == [PERCENT];
      } else {
        assert t == [t[0]] + t[1..];
        WeightCons(kind, t[0], t[1..]);
        LosesAfter(kind, t[0], t[1..]);
      }
    }
  }

  lemma BackCons(kind: Kind, c: bv8, s: Text)
    requires c != PERCENT
    ensures Back(kind, [c] + s) == [c] + Back(kind, s)
  {
    hide Run, Escaped, Escapes, EscapedByte;
    EscapedCons(kind, c, s);
    BackByte(kind, c, Escaped(kind, s));
  }

  lemma {:induction false} LosesAfter(kind: Kind, c: bv8, s: Text)
    requires !Escapes(kind, PERCENT)
    ensures Weight(kind, Back(kind, [PERCENT] + ([c] + s))) < 2 + Weight(kind, [c] + s)
    decreases |s| + 1
  {
    hide Run, Back, Escaped, Escapes, Value, IsHex, Digit, Joined, Weight;
    NothingEscaped(kind);
    WeightCons(kind, c, s);
    if Escapes(kind, c) {
      AfterPercentEscaped(kind, c, s);
      WeightDigits(kind, c, Back(kind, s));
      WeightCons(kind, PERCENT, [Digit(c >> 4), Digit(c & 0xf)] + Back(kind, s));
      Loses(kind, s);
    } else if !IsHex(c) {
      AfterPercentPlain(kind, c, s);
      WeightCons(kind, c, Back(kind, s));
      Loses(kind, s);
    } else if s == [] {
      AfterPercentEnd(kind, c);
      assert [c] + s == [c];
    } else {
      var x, u := s[0], s[1..];
      assert s == [x] + u;
      AfterDigit(kind, c, x, u);
      WeightCons(kind, x, u);
      WeightDigits(kind, x, Back(kind, u));
      if IsHex(x) { WeightCons(kind, Joined(Value(c), Value(x)), Back(kind, u)); }
      Loses(kind, u);
    }
  }

  /** The round trip holds of a text just when its kind escapes '%' or the text has no '%'. */
  lemma RoundTripExactly(kind: Kind, s: Text)
    ensures Back(kind, s) == s <==> kind != REFRESH || PERCENT !in s
  {
    PercentEscaped(kind);
    if kind != REFRESH || PERCENT !in s {
      RoundTrip(kind, s);
    } else {
      Loses(kind, s);
    }
  }
}
