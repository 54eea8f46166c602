/** string_base64_encode and string_base64_decode of src/fast_string.c. */
module Base64 {

  type Text = seq<bv8>

  const PAD: bv8 := 61      // '='
  const INVALID: bv8 := 77

  // ---------- the alphabet of section 4 of RFC 4648 ----------

  /** The symbol of a six-bit value. */
  function Symbol(v: bv8): bv8
  {
    if v < 26 then 65 + v else if v < 52 then 97 + (v - 26) else if v < 62 then 48 + (v - 52)
    else if v == 62 then 43 else 47
  }

  /** The value of a symbol, or INVALID. */
  function Value(c: bv8): bv8
  {
    if 65 <= c <= 90 then c - 65 else if 97 <= c <= 122 then c - 97 + 26 else if 48 <= c <= 57 then c - 48 + 52
    else if c == 43 then 62 else if c == 47 then 63 else INVALID
  }

  function Alphabet(): string
  {
    "ABCDEFGHIJKLMNOP" + "QRSTUVWXYZabcdef" + "ghijklmnopqrstuv" + "wxyz0123456789+/"
  }

  predicate Is(c: bv8, x: char) { c as int == x as int }

  /** Six bits as a number, and as a byte. */
  function Six(a: bool, b: bool, c: bool, d: bool, e: bool, f: bool): (v: int)
    ensures 0 <= v < 64
  {
    (if a then 32 else 0) + (if b then 16 else 0) + (if c then 8 else 0) + (if d then 4 else 0) + (if e then 2 else 0)
    + (if f then 1 else 0)
  }

  function SixByte(a: bool, b: bool, c: bool, d: bool, e: bool, f: bool): bv8
  {
    (if a then 32 else 0) | (if b then 16 else 0) | (if c then 8 else 0) | (if d then 4 else 0) | (if e then 2 else 0)
    | (if f then 1 else 0)
  }

  /** The symbol computed is the one of the alphabet, whose position is the value. */
  lemma SymbolOfAlphabet(a: bool, b: bool, c: bool, d: bool, e: bool, f: bool)
    ensures |Alphabet()| == 64 && Is(Symbol(SixByte(a, b, c, d, e, f)), Alphabet()[Six(a, b, c, d, e, f)])
    ensures SixByte(a, b, c, d, e, f) as int == Six(a, b, c, d, e, f)
    ensures SixByte(a, b, c, d, e, f) < 64 && Symbol(SixByte(a, b, c, d, e, f)) != PAD
  {
  }

  lemma SixBits(v: bv8)
    requires v < 64
    ensures v == SixByte(v & 32 != 0, v & 16 != 0, v & 8 != 0, v & 4 != 0, v & 2 != 0, v & 1 != 0)
  {
  }

  /** A byte is the symbol at position `v` of the alphabet exactly when its value is `v`, and
      INVALID exactly when it is nowhere in the alphabet. */
  lemma ValueIsPosition(c: bv8)
    ensures Value(c) != INVALID <==> exists v :: 0 <= v < |Alphabet()| && Is(c, Alphabet()[v])
    ensures forall v :: 0 <= v < |Alphabet()| && Is(c, Alphabet()[v]) ==> Value(c) as int == v
  {
    hide Value, Is, Alphabet;
    AlphabetLength();
    forall v | 0 <= v < |Alphabet()| && Is(c, Alphabet()[v]) ensures Value(c) as int == v && Value(c) != INVALID {
      ValueAt(c, v);
    }
    if Value(c) != INVALID {
      HasPosition(c);
    }
  }

  lemma AlphabetLength()
    ensures |Alphabet()| == 64
  {
  }

  lemma ValueAt(c: bv8, v: int)
    requires 0 <= v < |Alphabet()| && Is(c, Alphabet()[v])
    ensures Value(c) as int == v && Value(c) != INVALID
  {
    hide Value, Is, Alphabet;
    AlphabetLength();
    var p, q, r, s, t, u := BitsOf(v);
    PositionValue(c, p, q, r, s, t, u);
  }

  lemma BitsOf(v: int) returns (a: bool, b: bool, c: bool, d: bool, e: bool, f: bool)
    requires 0 <= v < 64
    ensures v == Six(a, b, c, d, e, f)
  {
    a := v >= 32;
    var x := if a then v - 32 else v;
    b := x >= 16;
    x := if b then x - 16 else x;
    c := x >= 8;
    x := if c then x - 8 else x;
    d := x >= 4;
    x := if d then x - 4 else x;
    e := x >= 2;
    f := x == 1 || x == 3;
  }

  lemma HasPosition(c: bv8)
    requires Value(c) != INVALID
    ensures exists v :: 0 <= v < |Alphabet()| && Is(c, Alphabet()[v])
  {
    hide Value, Symbol, Is, Alphabet, Six, SixByte;
    SymbolValue(c);
    var v := Value(c);
    SixBits(v);
    SymbolOfAlphabet(v & 32 != 0, v & 16 != 0, v & 8 != 0, v & 4 != 0, v & 2 != 0, v & 1 != 0);
  }

  lemma PositionValue(x: bv8, a: bool, b: bool, c: bool, d: bool, e: bool, f: bool)
    requires |Alphabet()| == 64 && Is(x, Alphabet()[Six(a, b, c, d, e, f)])
    ensures Value(x) as int == Six(a, b, c, d, e, f) && Value(x) != INVALID
  {
    hide Alphabet, Six, SixByte, Value, Symbol;
    SymbolOfAlphabet(a, b, c, d, e, f);
    ValueSymbol(SixByte(a, b, c, d, e, f));
    SameByte(x, Symbol(SixByte(a, b, c, d, e, f)), Alphabet()[Six(a, b, c, d, e, f)]);
  }

  lemma SameByte(x: bv8, y: bv8, c: char)
    requires Is(x, c) && Is(y, c)
    ensures x == y
  {
  }

  lemma SymbolValue(c: bv8)
    requires Value(c) != INVALID
    ensures Value(c) < 64 && Symbol(Value(c)) == c
  {
  }

  lemma ValueSymbol(v: bv8)
    requires v < 64
    ensures Value(Symbol(v)) == v && Symbol(v) != PAD && v != INVALID
  {
  }

  /** A six-bit group of a 24-bit group of three bytes, the first one at position 0. */
  function Group(a: bv8, b: bv8, c: bv8, i: int): bv8
    requires 0 <= i < 4
  {
    var q: bv24 := ((a as bv24) << 16) | ((b as bv24) << 8) | (c as bv24);
    var g := if i == 0 then q >> 18 else if i == 1 then q >> 12 else if i == 2 then q >> 6 else q;
    (g & 0x3f) as bv8
  }

  lemma GroupsByShifts(a: bv8, b: bv8, c: bv8)
    ensures Group(a, b, c, 0) == (a >> 2) & 0x3f
    ensures Group(a, b, c, 1) == ((a & 3) << 4) | (b >> 4)
    ensures Group(a, b, c, 2) == ((b & 0x0f) << 2) | (c >> 6)
    ensures Group(a, b, c, 3) == c & 0x3f
  {
  }

  lemma GroupsAreSmall(a: bv8, b: bv8, c: bv8, i: int)
    requires 0 <= i < 4
    ensures Group(a, b, c, i) < 64
  {
  }

  /** The bytes come back from the four groups. */
  lemma BytesFromGroups(a: bv8, b: bv8, c: bv8)
    ensures var u, v, w, x := Group(a, b, c, 0), Group(a, b, c, 1), Group(a, b, c, 2), Group(a, b, c, 3);
      First(u, v) == a && Second(v, w) == b && Third(w, x) == c
  {
    GroupsByShifts(a, b, c);
    hide Group;
    Split(a);
    Split(b);
    Split(c);
  }

  lemma Split(a: bv8)
    ensures (((a >> 2) & 0x3f) << 2) | (a & 3) == a && ((a >> 4) << 4) | (a & 0x0f) == a && ((a >> 6) << 6) | (a & 0x3f) == a
  {
  }

  // ---------- encoding ----------

  /** Three bytes as four symbols. */
  function Quad(a: bv8, b: bv8, c: bv8): Text
  {
    [Symbol(Group(a, b, c, 0)), Symbol(Group(a, b, c, 1)), Symbol(Group(a, b, c, 2)), Symbol(Group(a, b, c, 3))]
  }

  /** The Base64 text of a byte string: groups of three bytes, the last one filled with zero bits
      and padded. */
  function Encoded(s: seq<bv8>): Text
  {
    if |s| >= 3 then Quad(s[0], s[1], s[2]) + Encoded(s[3..])
    else if |s| == 2 then Quad(s[0], s[1], 0)[..3] + [PAD]
    else if |s| == 1 then Quad(s[0], 0, 0)[..2] + [PAD, PAD]
    else []
  }

  lemma {:induction false} EncodedLength(s: seq<bv8>)
    ensures |Encoded(s)| == 4 * ((|s| + 2) / 3)
  {
    if |s| >= 3 { EncodedLength(s[3..]); }
  }

  function Byte(s: seq<bv8>, i: nat): bv8
  {
    if i < |s| then s[i] else 0
  }

  function Mask(i: int): bv8
  {
    if i == 0 then 128 else if i == 1 then 64 else if i == 2 then 32 else if i == 3 then 16
    else if i == 4 then 8 else if i == 5 then 4 else if i == 6 then 2 else 1
  }

  /** Bit `r` of a byte, the highest one first. */
  predicate Has(b: bv8, r: int)
  {
    b & Mask(r) != 0
  }

  /** Bit `i` of a byte string, the highest bit of the first byte first, and zeros behind the end. */
  predicate Bit(s: seq<bv8>, i: nat)
  {
    Has(Byte(s, i / 8), i % 8)
  }

  /** The number in bits 6k to 6k + 5. */
  function SixAt(s: seq<bv8>, k: nat): (v: int)
    ensures 0 <= v < 64
  {
    Six(Bit(s, 6 * k), Bit(s, 6 * k + 1), Bit(s, 6 * k + 2), Bit(s, 6 * k + 3), Bit(s, 6 * k + 4), Bit(s, 6 * k + 5))
  }

  /** What Base64 means in section 4 of RFC 4648: six bits select a symbol of the alphabet, and
      the text is padded to a multiple of four symbols. */
  ghost predicate IsBase64(s: seq<bv8>, t: Text)
  {
    var pads := (3 - |s| % 3) % 3;
    && |t| == 4 * ((|s| + 2) / 3) && |Alphabet()| == 64
    && (forall k :: 0 <= k < |t| ==> (t[k] == 61 <==> k >= |t| - pads))
    && (forall k {:trigger t[k]} :: 0 <= k < |t| - pads ==> Is(t[k], Alphabet()[SixAt(s, k)]))
  }

  lemma BitLater(s: seq<bv8>, i: nat)
    requires |s| >= 3 && i >= 24
    ensures Bit(s, i) == Bit(s[3..], i - 24)
  {
    assert (i - 24) / 8 == i / 8 - 3 && (i - 24) % 8 == i % 8;
  }

  lemma SixLater(s: seq<bv8>, k: nat)
    requires |s| >= 3 && k >= 4
    ensures SixAt(s, k) == SixAt(s[3..], k - 4)
  {
    hide Bit, Six;
    BitLater(s, 6 * k);
    BitLater(s, 6 * k + 1);
    BitLater(s, 6 * k + 2);
    BitLater(s, 6 * k + 3);
    BitLater(s, 6 * k + 4);
    BitLater(s, 6 * k + 5);
  }

  /** Bit `n` of three bytes. */
  predicate BitOfThree(a: bv8, b: bv8, c: bv8, n: nat)
  {
    if n < 8 then Has(a, n) else if n < 16 then Has(b, n - 8) else Has(c, n - 16)
  }

  lemma BitFirst(s: seq<bv8>, n: nat)
    requires n < 24
    ensures Bit(s, n) == BitOfThree(Byte(s, 0), Byte(s, 1), Byte(s, 2), n)
  {
    hide Has, Bit, Byte;
    if n < 8 {
      BitIs(s, n, 0, n);
    } else if n < 16 {
      BitIs(s, n, 1, n - 8);
    } else {
      BitIs(s, n, 2, n - 16);
    }
  }

  lemma BitIs(s: seq<bv8>, i: nat, q: nat, r: nat)
    requires i == 8 * q + r && r < 8
    ensures Bit(s, i) == Has(Byte(s, q), r)
  {
    hide Has, Byte;
  }

  lemma FrontGroups(a: bv8, b: bv8, c: bv8)
    ensures Group(a, b, c, 0) == SixByte(BitOfThree(a, b, c, 0), BitOfThree(a, b, c, 1), BitOfThree(a, b, c, 2), BitOfThree(a, b, c, 3), BitOfThree(a, b, c, 4), BitOfThree(a, b, c, 5))
    ensures Group(a, b, c, 1) == SixByte(BitOfThree(a, b, c, 6), BitOfThree(a, b, c, 7), BitOfThree(a, b, c, 8), BitOfThree(a, b, c, 9), BitOfThree(a, b, c, 10), BitOfThree(a, b, c, 11))
  {
    hide Group, SixByte;
    GroupMasks(a, b, c);
  }

  lemma BackGroups(a: bv8, b: bv8, c: bv8)
    ensures Group(a, b, c, 2) == SixByte(BitOfThree(a, b, c, 12), BitOfThree(a, b, c, 13), BitOfThree(a, b, c, 14), BitOfThree(a, b, c, 15), BitOfThree(a, b, c, 16), BitOfThree(a, b, c, 17))
    ensures Group(a, b, c, 3) == SixByte(BitOfThree(a, b, c, 18), BitOfThree(a, b, c, 19), BitOfThree(a, b, c, 20), BitOfThree(a, b, c, 21), BitOfThree(a, b, c, 22), BitOfThree(a, b, c, 23))
  {
    hide Group, SixByte;
    GroupMasks(a, b, c);
  }

  lemma GroupMasks(a: bv8, b: bv8, c: bv8)
    ensures Group(a, b, c, 0) == SixByte(a & 128 != 0, a & 64 != 0, a & 32 != 0, a & 16 != 0, a & 8 != 0, a & 4 != 0)
    ensures Group(a, b, c, 1) == SixByte(a & 2 != 0, a & 1 != 0, b & 128 != 0, b & 64 != 0, b & 32 != 0, b & 16 != 0)
    ensures Group(a, b, c, 2) == SixByte(b & 8 != 0, b & 4 != 0, b & 2 != 0, b & 1 != 0, c & 128 != 0, c & 64 != 0)
    ensures Group(a, b, c, 3) == SixByte(c & 32 != 0, c & 16 != 0, c & 8 != 0, c & 4 != 0, c & 2 != 0, c & 1 != 0)
  {
    GroupsByShifts(a, b, c);
  }

  /** The four symbols of the first three bytes, zeros taken for bytes that are not there. */
  lemma QuadIs(s: seq<bv8>, k: int)
    requires 0 <= k < 4
    ensures |Alphabet()| == 64
    ensures var q := Quad(Byte(s, 0), Byte(s, 1), Byte(s, 2)); |q| == 4 && Is(q[k], Alphabet()[SixAt(s, k)]) && q[k] != PAD
  {
    hide Is, Symbol, Six, SixByte, Group, Alphabet, Byte, Bit, BitOfThree;
    FrontGroups(Byte(s, 0), Byte(s, 1), Byte(s, 2));
    BackGroups(Byte(s, 0), Byte(s, 1), Byte(s, 2));
    if k == 0 {
      SixFirst(s, 0);
    } else if k == 1 {
      SixFirst(s, 6);
    } else if k == 2 {
      SixFirst(s, 12);
    } else {
      SixFirst(s, 18);
    }
  }

  lemma SixFirst(s: seq<bv8>, i: nat)
    requires i + 6 <= 24 && i % 6 == 0
    ensures |Alphabet()| == 64
    ensures var x, y, z := Byte(s, 0), Byte(s, 1), Byte(s, 2);
      var v := SixByte(BitOfThree(x, y, z, i), BitOfThree(x, y, z, i + 1), BitOfThree(x, y, z, i + 2),
                       BitOfThree(x, y, z, i + 3), BitOfThree(x, y, z, i + 4), BitOfThree(x, y, z, i + 5));
      Is(Symbol(v), Alphabet()[SixAt(s, i / 6)]) && Symbol(v) != PAD
  {
    hide Is, Symbol, Six, SixByte, Alphabet, Byte, Bit, BitOfThree;
    BitFirst(s, i);
    BitFirst(s, i + 1);
    BitFirst(s, i + 2);
    BitFirst(s, i + 3);
    BitFirst(s, i + 4);
    BitFirst(s, i + 5);
    SymbolOfAlphabet(Bit(s, i), Bit(s, i + 1), Bit(s, i + 2), Bit(s, i + 3), Bit(s, i + 4), Bit(s, i + 5));
  }

  lemma FourMore(s: seq<bv8>, q: Text, t: Text)
    requires |s| >= 3 && IsBase64(s[3..], t) && |q| == 4 && |Alphabet()| == 64
    requires forall k :: 0 <= k < 4 ==> Is(q[k], Alphabet()[SixAt(s, k)]) && q[k] != PAD
    ensures IsBase64(s, q + t)
  {
    hide Is, SixAt, Alphabet;
    var w, rest := q + t, (3 - |s| % 3) % 3;
    assert |s[3..]| % 3 == |s| % 3 && (|s[3..]| + 2) / 3 == (|s| + 2) / 3 - 1;
    forall k {:trigger w[k]} | 0 <= k < |w|
      ensures w[k] == 61 <==> k >= |w| - rest
      ensures k < |w| - rest ==> Is(w[k], Alphabet()[SixAt(s, k)])
    {
      if k < 4 {
        assert w[k] == q[k];
      } else {
        SixLater(s, k);
        assert w[k] == t[k - 4];
      }
    }
  }

  /** The encoded text is the Base64 text of the standard. */
  lemma {:induction false} EncodedIsBase64(s: seq<bv8>)
    ensures IsBase64(s, Encoded(s))
  {
    hide Is, SixAt, Quad, Alphabet, IsBase64;
    AlphabetLength();
    var q := Quad(Byte(s, 0), Byte(s, 1), Byte(s, 2));
    QuadLength(Byte(s, 0), Byte(s, 1), Byte(s, 2));
    forall k | 0 <= k < 4 ensures Is(q[k], Alphabet()[SixAt(s, k)]) && q[k] != PAD {
      QuadIs(s, k);
    }
    if |s| >= 3 {
      EncodedIsBase64(s[3..]);
      FourMore(s, q, Encoded(s[3..]));
    } else {
      LastIsBase64(s, q);
    }
  }

  lemma LastIsBase64(s: seq<bv8>, q: Text)
    requires |s| < 3 && q == Quad(Byte(s, 0), Byte(s, 1), Byte(s, 2)) && |q| == 4 && |Alphabet()| == 64
    requires forall k :: 0 <= k < 4 ==> Is(q[k], Alphabet()[SixAt(s, k)]) && q[k] != PAD
    ensures IsBase64(s, Encoded(s))
  {
    hide Is, SixAt, Quad, Alphabet, IsBase64;
    PaddedIs(s, q);
  }

  lemma PaddedIs(s: seq<bv8>, q: Text)
    requires |s| < 3 && |q| == 4 && |Alphabet()| == 64
    requires forall k :: 0 <= k < 4 ==> Is(q[k], Alphabet()[SixAt(s, k)]) && q[k] != PAD
    ensures |s| == 0 ==> IsBase64(s, [])
    ensures |s| == 1 ==> IsBase64(s, q[..2] + [PAD, PAD])
    ensures |s| == 2 ==> IsBase64(s, q[..3] + [PAD])
  {
    hide Is, SixAt, Alphabet;
  }

  /** string_base64_encode, into a buffer that is large enough. */
  method Encode(src: seq<bv8>, dst: array<bv8>) returns (n: nat)
    requires dst.Length >= 4 * ((|src| + 2) / 3)
    modifies dst
    ensures n <= dst.Length && dst[..n] == Encoded(src) && IsBase64(src, dst[..n])
  {
    hide Encoded, Quad, IsBase64;
    EncodedIsBase64(src);
    EncodedLength(src);
    var i := 0;
    n := 0;
    assert src[0..] == src;
    while |src| - i > 2
      invariant 0 <= i <= |src| && n + |Encoded(src[i..])| == |Encoded(src)| && n <= dst.Length
      invariant dst[..n] + Encoded(src[i..]) == Encoded(src)
    {
      EncodedLength(src[i..]);
      PutQuad(dst, n, src[i], src[i + 1], src[i + 2]);
      EncodeStep(src, i, dst[..n], dst[..n + 4]);
      n := n + 4;
      i := i + 3;
    }
    EncodedLength(src[i..]);
    EncodedEmpty(src[i..]);
    if i < |src| {
      PutTail(dst, n, src[i..]);
      n := n + 4;
    }
    assert dst[..n] == Encoded(src);
  }

  lemma EncodedEmpty(s: seq<bv8>)
    ensures s == [] ==> Encoded(s) == []
  {
  }

  /** The symbols of three bytes. */
  method PutQuad(dst: array<bv8>, n: nat, a: bv8, b: bv8, c: bv8)
    requires n + 4 <= dst.Length
    modifies dst
    ensures dst[..n + 4] == old(dst[..n]) + Quad(a, b, c)
  {
    hide Symbol, Group;
    GroupsByShifts(a, b, c);
    Put(dst, n, Symbol((a >> 2) & 0x3f), Symbol(((a & 3) << 4) | (b >> 4)),
        Symbol(((b & 0x0f) << 2) | (c >> 6)), Symbol(c & 0x3f), Quad(a, b, c));
  }

  /** The symbols of the last one or two bytes, padded. */
  method PutTail(dst: array<bv8>, n: nat, s: seq<bv8>)
    requires n + 4 <= dst.Length && 1 <= |s| <= 2
    modifies dst
    ensures dst[..n + 4] == old(dst[..n]) + Encoded(s)
  {
    hide Symbol, Group;
    var a := s[0];
    if |s| == 1 {
      GroupsByShifts(a, 0, 0);
      TailShifts(a);
      Put(dst, n, Symbol((a >> 2) & 0x3f), Symbol((a & 3) << 4), PAD, PAD, Encoded(s));
    } else {
      var b := s[1];
      GroupsByShifts(a, b, 0);
      TailShifts(b);
      Put(dst, n, Symbol((a >> 2) & 0x3f), Symbol(((a & 3) << 4) | (b >> 4)), Symbol((b & 0x0f) << 2), PAD, Encoded(s));
    }
  }

  lemma TailShifts(a: bv8)
    ensures ((a & 3) << 4) | (0 as bv8 >> 4) == (a & 3) << 4 && ((a & 0x0f) << 2) | (0 as bv8 >> 6) == (a & 0x0f) << 2
  {
  }

  lemma EncodeStep(src: seq<bv8>, i: nat, done: Text, done': Text)
    requires i + 3 <= |src| && done + Encoded(src[i..]) == Encoded(src)
    requires done' == done + Quad(src[i], src[i + 1], src[i + 2])
    ensures done' + Encoded(src[i + 3..]) == Encoded(src)
    ensures |Encoded(src[i..])| == 4 + |Encoded(src[i + 3..])|
  {
    hide Quad;
    var t := src[i..];
    assert t[3..] == src[i + 3..] && t[0] == src[i] && t[1] == src[i + 1] && t[2] == src[i + 2];
    QuadLength(t[0], t[1], t[2]);
  }

  lemma QuadLength(a: bv8, b: bv8, c: bv8)
    ensures |Quad(a, b, c)| == 4
  {
  }

  /** Appends four symbols. */
  method Put(dst: array<bv8>, n: nat, a: bv8, b: bv8, c: bv8, d: bv8, ghost q: Text)
    requires n + 4 <= dst.Length && q == [a, b, c, d]
    modifies dst
    ensures dst[..n + 4] == old(dst[..n]) + q
  {
    dst[n], dst[n + 1], dst[n + 2], dst[n + 3] := a, b, c, d;
  }

  // ---------- decoding ----------

  /** The part in front of the first padding. */
  function Symbols(t: Text): Text
  {
    if t == [] || t[0] == PAD then [] else [t[0]] + Symbols(t[1..])
  }

  predicate Decodable(t: Text)
  {
    |Symbols(t)| % 4 != 1 && forall i :: 0 <= i < |Symbols(t)| ==> Value(Symbols(t)[i]) != INVALID
  }

  function First(u: bv8, v: bv8): bv8 { (u << 2) | (v >> 4) }

  function Second(v: bv8, w: bv8): bv8 { (v << 4) | (w >> 2) }

  function Third(w: bv8, x: bv8): bv8 { (w << 6) | x }

  /** The bytes of two to four symbols. */
  function Triple(t: Text): seq<bv8>
    requires |t| >= 2
  {
    [First(Value(t[0]), Value(t[1]))]
    + (if |t| >= 3 then [Second(Value(t[1]), Value(t[2]))] else [])
    + (if |t| >= 4 then [Third(Value(t[2]), Value(t[3]))] else [])
  }

  /** The bytes that symbols without padding stand for. */
  function Decoded(t: Text): seq<bv8>
  {
    if |t| >= 4 then Triple(t[..4]) + Decoded(t[4..]) else if |t| >= 2 then Triple(t) else []
  }

  lemma {:induction false} DecodedLength(t: Text)
    ensures |Decoded(t)| == |t| / 4 * 3 + (if |t| % 4 > 1 then |t| % 4 - 1 else 0)
  {
    if |t| >= 4 { DecodedLength(t[4..]); }
  }

  /** What Base64 symbols stand for in section 4 of RFC 4648: the bits of their values, six each,
      cut to whole bytes. */
  ghost predicate MeansBytes(t: Text, b: seq<bv8>)
  {
    && |b| == |t| * 6 / 8
    && forall i: nat :: i < 8 * |b| ==> (Bit(b, i) <==> SymbolBit(t, i))
  }

  /** Bit `i` of the values of the symbols, the highest of the six bits of the first one first. */
  predicate SymbolBit(t: Text, i: nat)
  {
    i / 6 < |t| && Has(Value(t[i / 6]), i % 6 + 2)
  }

  lemma FirstMasks(u: bv8, v: bv8)
    requires v < 64
    ensures First(u, v) & 128 != 0 <==> u & 32 != 0
    ensures First(u, v) & 64 != 0 <==> u & 16 != 0
    ensures First(u, v) & 32 != 0 <==> u & 8 != 0
    ensures First(u, v) & 16 != 0 <==> u & 4 != 0
    ensures First(u, v) & 8 != 0 <==> u & 2 != 0
    ensures First(u, v) & 4 != 0 <==> u & 1 != 0
    ensures First(u, v) & 2 != 0 <==> v & 32 != 0
    ensures First(u, v) & 1 != 0 <==> v & 16 != 0
  {
  }

  lemma SecondMasks(v: bv8, w: bv8)
    requires w < 64
    ensures Second(v, w) & 128 != 0 <==> v & 8 != 0
    ensures Second(v, w) & 64 != 0 <==> v & 4 != 0
    ensures Second(v, w) & 32 != 0 <==> v & 2 != 0
    ensures Second(v, w) & 16 != 0 <==> v & 1 != 0
    ensures Second(v, w) & 8 != 0 <==> w & 32 != 0
    ensures Second(v, w) & 4 != 0 <==> w & 16 != 0
    ensures Second(v, w) & 2 != 0 <==> w & 8 != 0
    ensures Second(v, w) & 1 != 0 <==> w & 4 != 0
  {
  }

  lemma ThirdMasks(w: bv8, x: bv8)
    requires x < 64
    ensures Third(w, x) & 128 != 0 <==> w & 2 != 0
    ensures Third(w, x) & 64 != 0 <==> w & 1 != 0
    ensures Third(w, x) & 32 != 0 <==> x & 32 != 0
    ensures Third(w, x) & 16 != 0 <==> x & 16 != 0
    ensures Third(w, x) & 8 != 0 <==> x & 8 != 0
    ensures Third(w, x) & 4 != 0 <==> x & 4 != 0
    ensures Third(w, x) & 2 != 0 <==> x & 2 != 0
    ensures Third(w, x) & 1 != 0 <==> x & 1 != 0
  {
  }

  lemma FirstBit(u: bv8, v: bv8, n: nat)
    requires v < 64 && n < 8
    ensures Has(First(u, v), n) <==> if n < 6 then Has(u, n + 2) else Has(v, n - 4)
  {
    FirstMasks(u, v);
    hide First;
    if n == 0 {
    } else if n == 1 {
    } else if n == 2 {
    } else if n == 3 {
    } else if n == 4 {
    } else if n == 5 {
    } else if n == 6 {
    } else {
    }
  }

  lemma SecondBit(v: bv8, w: bv8, n: nat)
    requires w < 64 && n < 8
    ensures Has(Second(v, w), n) <==> if n < 4 then Has(v, n + 4) else Has(w, n - 2)
  {
    SecondMasks(v, w);
    hide Second;
    if n == 0 {
    } else if n == 1 {
    } else if n == 2 {
    } else if n == 3 {
    } else if n == 4 {
    } else if n == 5 {
    } else if n == 6 {
    } else {
    }
  }

  lemma ThirdBit(w: bv8, x: bv8, n: nat)
    requires x < 64 && n < 8
    ensures Has(Third(w, x), n) <==> if n < 2 then Has(w, n + 6) else Has(x, n)
  {
    ThirdMasks(w, x);
    hide Third;
    if n == 0 {
    } else if n == 1 {
    } else if n == 2 {
    } else if n == 3 {
    } else if n == 4 {
    } else if n == 5 {
    } else if n == 6 {
    } else {
    }
  }

  lemma SymbolBitIs(t: Text, i: nat, q: nat, r: nat)
    requires i == 6 * q + r && r < 6
    ensures SymbolBit(t, i) <==> q < |t| && Has(Value(t[q]), r + 2)
  {
    hide Has, Value;
  }

  lemma BitOfFirst(t: Text, b: seq<bv8>, i: nat)
    requires |t| >= 2 && |b| > 0 && b[0] == First(Value(t[0]), Value(t[1])) && Value(t[1]) < 64 && 0 <= i < 8
    ensures Bit(b, i) <==> SymbolBit(t, i)
  {
    hide Value, Has, First, Second, Third, Bit, SymbolBit;
    BitIs(b, i, 0, i - 0);
    FirstBit(Value(t[0]), Value(t[1]), i - 0);
    if i < 6 {
      SymbolBitIs(t, i, 0, i - 0);
    } else {
      SymbolBitIs(t, i, 1, i - 6);
    }
  }

  lemma BitOfSecond(t: Text, b: seq<bv8>, i: nat)
    requires |t| >= 3 && |b| > 1 && b[1] == Second(Value(t[1]), Value(t[2])) && Value(t[2]) < 64 && 8 <= i < 16
    ensures Bit(b, i) <==> SymbolBit(t, i)
  {
    hide Value, Has, First, Second, Third, Bit, SymbolBit;
    BitIs(b, i, 1, i - 8);
    SecondBit(Value(t[1]), Value(t[2]), i - 8);
    if i < 12 {
      SymbolBitIs(t, i, 1, i - 6);
    } else {
      SymbolBitIs(t, i, 2, i - 12);
    }
  }

  lemma BitOfThird(t: Text, b: seq<bv8>, i: nat)
    requires |t| >= 4 && |b| > 2 && b[2] == Third(Value(t[2]), Value(t[3])) && Value(t[3]) < 64 && 16 <= i < 24
    ensures Bit(b, i) <==> SymbolBit(t, i)
  {
    hide Value, Has, First, Second, Third, Bit, SymbolBit;
    BitIs(b, i, 2, i - 16);
    ThirdBit(Value(t[2]), Value(t[3]), i - 16);
    if i < 18 {
      SymbolBitIs(t, i, 2, i - 12);
    } else {
      SymbolBitIs(t, i, 3, i - 18);
    }
  }

  /** The bits of the bytes of two to four symbols. */
  lemma TripleBit(t: Text, i: nat)
    requires 2 <= |t| <= 4 && i < 8 * (|t| - 1) && forall k :: 0 <= k < |t| ==> Value(t[k]) < 64
    ensures Bit(Triple(t), i) <==> SymbolBit(t, i)
  {
    TripleLength(t);
    hide Value, Has, First, Second, Third, Bit, SymbolBit;
    if i < 8 {
      BitOfFirst(t, Triple(t), i);
    } else if i < 16 {
      BitOfSecond(t, Triple(t), i);
    } else {
      BitOfThird(t, Triple(t), i);
    }
  }

  /** The first three bytes and the first four symbols. */
  lemma BitBefore(s: seq<bv8>, r: seq<bv8>, i: nat)
    requires i < 8 * |s|
    ensures Bit(s + r, i) == Bit(s, i)
  {
    hide Has;
  }

  lemma SymbolBefore(t: Text, i: nat)
    requires |t| >= 4 && i < 24
    ensures SymbolBit(t, i) <==> SymbolBit(t[..4], i)
  {
    hide Has, Value;
    assert i / 6 < 4;
  }

  lemma SymbolLater(t: Text, i: nat)
    requires |t| >= 4 && i >= 24
    ensures SymbolBit(t, i) <==> SymbolBit(t[4..], i - 24)
  {
    hide Has, Value;
    assert (i - 24) / 6 == i / 6 - 4 && (i - 24) % 6 == i % 6;
  }

  /** The bytes decoded are those that the standard means. */
  lemma {:induction false} DecodedMeans(t: Text)
    requires |t| % 4 != 1 && forall k :: 0 <= k < |t| ==> Value(t[k]) < 64
    ensures MeansBytes(t, Decoded(t))
  {
    hide Value, Has, Triple, Bit, SymbolBit;
    var b := Decoded(t);
    DecodedLength(t);
    if |t| >= 4 {
      var q, rest := t[..4], Decoded(t[4..]);
      TripleLength(q);
      DecodedMeans(t[4..]);
      assert b == Triple(q) + rest && b[3..] == rest;
      forall i: nat | i < 8 * |b| ensures Bit(b, i) <==> SymbolBit(t, i) {
        if i < 24 {
          BitBefore(Triple(q), rest, i);
          TripleBit(q, i);
          SymbolBefore(t, i);
        } else {
          BitLater(b, i);
          SymbolLater(t, i);
        }
      }
    } else if |t| >= 2 {
      TripleLength(t);
      forall i: nat | i < 8 * |b| ensures Bit(b, i) <==> SymbolBit(t, i) {
        TripleBit(t, i);
      }
    }
  }

  lemma ValuesAreSix(t: Text)
    requires forall k :: 0 <= k < |t| ==> Value(t[k]) != INVALID
    ensures forall k :: 0 <= k < |t| ==> Value(t[k]) < 64
  {
    hide Value;
    forall k | 0 <= k < |t| ensures Value(t[k]) < 64 {
      SymbolValue(t[k]);
    }
  }

  /** The symbols that count are those in front of the first '='. */
  lemma {:induction false} SymbolsAreFront(t: Text)
    ensures Symbols(t) <= t && (Symbols(t) == t || t[|Symbols(t)|] == 61) && 61 !in Symbols(t)
  {
    if t != [] && t[0] != PAD {
      SymbolsAreFront(t[1..]);
    }
  }

  /** string_base64_decode: refuses a text with a foreign symbol in front of the padding or one
      symbol too many. */
  method Decode(src: Text, dst: array<bv8>) returns (ok: bool, n: nat)
    requires Decodable(src) ==> dst.Length >= |Decoded(Symbols(src))|
    modifies dst
    ensures ok <==> Decodable(src)
    ensures ok ==> n <= dst.Length && dst[..n] == Decoded(Symbols(src)) && MeansBytes(Symbols(src), dst[..n])
    ensures !ok ==> dst[..] == old(dst[..])
  {
    hide Value, Triple, Decoded, Symbols, MeansBytes;
    n := 0;
    var valid, len := Scan(src);
    if !valid || len % 4 == 1 {
      return false, 0;
    }
    ghost var t := src[..len];
    DecodedLength(t);
    ValuesAreSix(t);
    DecodedMeans(t);
    var i := 0;
    assert t[0..] == t;
    while len - i > 3
      invariant 0 <= i <= len && n + |Decoded(t[i..])| == |Decoded(t)| && i % 4 == 0
      invariant n <= dst.Length && dst[..n] + Decoded(t[i..]) == Decoded(t)
    {
      DecodedStep(t, i, dst[..n]);
      assert t[i..i + 4] == src[i..i + 4];
      n := PutTriple(dst, n, src[i..i + 4]);
      i := i + 4;
    }
    DecodedTail(t[i..]);
    if len - i > 1 {
      assert t[i..] == src[i..len];
      TripleLength(t[i..]);
      n := PutTriple(dst, n, src[i..len]);
    }
    ok := true;
  }

  lemma DecodedStep(t: Text, i: nat, done: seq<bv8>)
    requires i + 4 <= |t| && done + Decoded(t[i..]) == Decoded(t)
    ensures (done + Triple(t[i..i + 4])) + Decoded(t[i + 4..]) == Decoded(t) && |Triple(t[i..i + 4])| == 3
    ensures |Decoded(t[i..])| == 3 + |Decoded(t[i + 4..])|
  {
    assert t[i..][..4] == t[i..i + 4] && t[i..][4..] == t[i + 4..];
    hide Triple;
    TripleLength(t[i..i + 4]);
  }

  lemma TripleLength(t: Text)
    requires 2 <= |t| <= 4
    ensures |Triple(t)| == |t| - 1
  {
  }

  lemma DecodedTail(t: Text)
    ensures |t| < 4 ==> Decoded(t) == if |t| >= 2 then Triple(t) else []
  {
  }

  /** The symbols in front of the padding, when all of them are valid. */
  method Scan(src: Text) returns (valid: bool, len: nat)
    ensures valid ==> len <= |src| && Symbols(src) == src[..len]
    ensures valid <==> forall i :: 0 <= i < |Symbols(src)| ==> Value(Symbols(src)[i]) != INVALID
  {
    hide Value, Symbols;
    len := 0;
    SymbolsStart(src);
    while len < |src| && src[len] != PAD
      invariant 0 <= len <= |src| && Symbols(src) == src[..len] + Symbols(src[len..])
      invariant forall i :: 0 <= i < len ==> Value(src[i]) != INVALID
    {
      SymbolsStep(src, len);
      if Value(src[len]) == INVALID {
        assert Symbols(src)[len] == src[len];
        return false, 0;
      }
      len := len + 1;
    }
    SymbolsEnd(src[len..]);
    valid := true;
  }

  lemma SymbolsStart(src: Text)
    ensures Symbols(src) == src[..0] + Symbols(src[0..])
  {
    assert src[0..] == src;
  }

  lemma SymbolsEnd(t: Text)
    ensures t == [] || t[0] == PAD ==> Symbols(t) == []
  {
  }

  lemma SymbolsStep(src: Text, k: nat)
    requires k < |src| && src[k] != PAD && Symbols(src) == src[..k] + Symbols(src[k..])
    ensures Symbols(src) == src[..k + 1] + Symbols(src[k + 1..])
  {
    assert src[k..][0] == src[k] && src[k..][1..] == src[k + 1..];
    assert Symbols(src[k..]) == [src[k]] + Symbols(src[k + 1..]);
    hide Symbols;
    Moved(src[..k], src[k], Symbols(src[k + 1..]));
    assert src[..k + 1] == src[..k] + [src[k]];
  }

  lemma Moved<T>(a: seq<T>, x: T, b: seq<T>)
    ensures a + ([x] + b) == (a + [x]) + b
  {
  }

  /** Appends the bytes of two to four symbols. */
  method PutTriple(dst: array<bv8>, n: nat, t: Text) returns (n': nat)
    requires 2 <= |t| <= 4 && n + |t| - 1 <= dst.Length
    modifies dst
    ensures n' == n + |t| - 1 && dst[..n'] == old(dst[..n]) + Triple(t)
  {
    hide Value;
    dst[n] := (Value(t[0]) << 2) | (Value(t[1]) >> 4);
    if |t| > 2 {
      dst[n + 1] := (Value(t[1]) << 4) | (Value(t[2]) >> 2);
    }
    if |t| > 3 {
      dst[n + 2] := (Value(t[2]) << 6) | Value(t[3]);
    }
    n' := n + |t| - 1;
  }

  // ---------- the round trip ----------

  lemma {:induction false} SymbolsConcat(p: Text, t: Text)
    requires forall i :: 0 <= i < |p| ==> p[i] != PAD
    ensures Symbols(p + t) == p + Symbols(t)
  {
    if p == [] {
      assert p + t == t;
    } else {
      SymbolsConcat(p[1..], t);
      assert (p + t)[0] == p[0] && (p + t)[1..] == p[1..] + t;
      assert p == [p[0]] + p[1..];
    }
  }

  lemma QuadValues(a: bv8, b: bv8, c: bv8)
    ensures forall i :: 0 <= i < 4 ==>
      Quad(a, b, c)[i] != PAD && Value(Quad(a, b, c)[i]) == Group(a, b, c, i) && Value(Quad(a, b, c)[i]) != INVALID
  {
    hide Symbol, Value, Group;
    forall i | 0 <= i < 4 ensures Value(Symbol(Group(a, b, c, i))) == Group(a, b, c, i) < 64 && Symbol(Group(a, b, c, i)) != PAD {
      GroupsAreSmall(a, b, c, i);
      ValueSymbol(Group(a, b, c, i));
    }
  }

  lemma TripleBytes(t: Text, u: bv8, v: bv8, w: bv8, x: bv8)
    requires |t| == 4 && Value(t[0]) == u && Value(t[1]) == v && Value(t[2]) == w && Value(t[3]) == x
    ensures Triple(t) == [First(u, v), Second(v, w), Third(w, x)]
    ensures Triple(t[..3]) == [First(u, v), Second(v, w)] && Triple(t[..2]) == [First(u, v)]
  {
    hide Value, First, Second, Third;
  }

  /** The symbols of three bytes are valid and decode to them; so do shorter parts. */
  lemma QuadDecodes(a: bv8, b: bv8, c: bv8)
    ensures forall i :: 0 <= i < 4 ==> Quad(a, b, c)[i] != PAD && Value(Quad(a, b, c)[i]) != INVALID
    ensures Triple(Quad(a, b, c)) == [a, b, c]
    ensures Triple(Quad(a, b, c)[..3]) == [a, b] && Triple(Quad(a, b, c)[..2]) == [a]
  {
    hide Quad, Value, Group, Triple, First, Second, Third;
    QuadLength(a, b, c);
    QuadValues(a, b, c);
    TripleBytes(Quad(a, b, c), Group(a, b, c, 0), Group(a, b, c, 1), Group(a, b, c, 2), Group(a, b, c, 3));
    BytesFromGroups(a, b, c);
  }

  lemma DecodedFour(q: Text, t: Text)
    requires |q| == 4
    ensures Decoded(q + t) == Triple(q) + Decoded(t)
  {
    assert (q + t)[..4] == q && (q + t)[4..] == t;
  }

  /** The symbols in front of the padding decode, whatever follows four of them. */
  ghost predicate Good(t: Text, s: seq<bv8>)
  {
    Decodable(t) && Decoded(Symbols(t)) == s
  }

  lemma GoodFour(q: Text, bytes: seq<bv8>, t: Text, s: seq<bv8>)
    requires |q| == 4 && Triple(q) == bytes && Good(t, s)
    requires forall i :: 0 <= i < 4 ==> q[i] != PAD && Value(q[i]) != INVALID
    ensures Good(q + t, bytes + s)
  {
    hide Triple, Value, Decoded, Symbols;
    SymbolsConcat(q, t);
    DecodedFour(q, Symbols(t));
    assert forall i :: 4 <= i < |q + Symbols(t)| ==> (q + Symbols(t))[i] == Symbols(t)[i - 4];
  }

  lemma GoodTail(q: Text, pad: Text, s: seq<bv8>)
    requires 2 <= |q| <= 3 && Triple(q) == s && |pad| > 0 && pad[0] == PAD
    requires forall i :: 0 <= i < |q| ==> q[i] != PAD && Value(q[i]) != INVALID
    ensures Good(q + pad, s)
  {
    hide Triple, Value;
    SymbolsConcat(q, pad);
    assert q + [] == q;
  }

  /** Decoding what was encoded gives every byte string back. */
  lemma {:induction false} RoundTrip(s: seq<bv8>)
    ensures Decodable(Encoded(s)) && Decoded(Symbols(Encoded(s))) == s
  {
    hide Quad, Triple, Value, Decoded, Symbols, Decodable;
    if |s| >= 3 {
      RoundTrip(s[3..]);
      QuadLength(s[0], s[1], s[2]);
      QuadDecodes(s[0], s[1], s[2]);
      GoodFour(Quad(s[0], s[1], s[2]), [s[0], s[1], s[2]], Encoded(s[3..]), s[3..]);
      assert [s[0], s[1], s[2]] + s[3..] == s;
    } else if |s| == 2 {
      QuadLength(s[0], s[1], 0);
      QuadDecodes(s[0], s[1], 0);
      GoodTail(Quad(s[0], s[1], 0)[..3], [PAD], s);
    } else if |s| == 1 {
      QuadLength(s[0], 0, 0);
      QuadDecodes(s[0], 0, 0);
      GoodTail(Quad(s[0], 0, 0)[..2], [PAD, PAD], s);
    } else {
      EmptyDecodes();
    }
  }

  lemma EmptyDecodes()
    ensures Decodable([]) && Decoded(Symbols([])) == []
  {
  }
}
