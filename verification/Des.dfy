/** DES and Triple-DES as src/fast_math.c computes them. */
module Des {
  import opened DesTables
  import opened Feistel

  // ---------- permutations ----------

  // DO_PERMUTATION swaps the bits of one word, shifted, with the bits of the other that the
  // mask selects.

  function Exchange4(s: Words): Words
  {
    var temp := ((s.left >> 4) ^ s.right) & 0x0f0f0f0f;
    Words(s.left ^ (temp << 4), s.right ^ temp)
  }

  function Exchange16(s: Words): Words
  {
    var temp := ((s.left >> 16) ^ s.right) & 0x0000ffff;
    Words(s.left ^ (temp << 16), s.right ^ temp)
  }

  function Exchange2(s: Words): Words
  {
    var temp := ((s.left >> 2) ^ s.right) & 0x33333333;
    Words(s.left ^ (temp << 2), s.right ^ temp)
  }

  function Exchange8(s: Words): Words
  {
    var temp := ((s.left >> 8) ^ s.right) & 0x00ff00ff;
    Words(s.left ^ (temp << 8), s.right ^ temp)
  }

  function RotateLeft(x: bv32): bv32 { (x << 1) | (x >> 31) }

  function RotateRight(x: bv32): bv32 { (x << 31) | (x >> 1) }

  /** The exchange of the odd bits in the middle of both permutations. */
  function ExchangeOdd(s: Words): Words
  {
    var temp := (s.left ^ s.right) & 0xaaaaaaaa;
    Words(s.left ^ temp, s.right ^ temp)
  }

  /** INITIAL_PERMUTATION */
  function Initial(s: Words): Words
  {
    var t := Exchange8(Exchange2(Swap(Exchange16(Exchange4(s)))));
    var e := ExchangeOdd(Words(t.right, RotateLeft(t.left)));
    Words(RotateLeft(e.left), e.right)
  }

  /** FINAL_PERMUTATION */
  function Final(s: Words): Words
  {
    var e := ExchangeOdd(Words(RotateRight(s.left), s.right));
    Exchange4(Exchange16(Swap(Exchange2(Exchange8(Words(RotateRight(e.right), e.left))))))
  }

  lemma Exchange4Twice(s: Words)
    ensures Exchange4(Exchange4(s)) == s
  {
  }

  lemma Exchange16Twice(s: Words)
    ensures Exchange16(Exchange16(s)) == s
  {
  }

  lemma Exchange2Twice(s: Words)
    ensures Exchange2(Exchange2(s)) == s
  {
  }

  lemma Exchange8Twice(s: Words)
    ensures Exchange8(Exchange8(s)) == s
  {
  }

  lemma RotateBack(x: bv32)
    ensures RotateRight(RotateLeft(x)) == x && RotateLeft(RotateRight(x)) == x
  {
  }

  lemma OddTwice(s: Words)
    ensures ExchangeOdd(ExchangeOdd(s)) == s
  {
  }

  /** The two permutations undo each other. */
  lemma PermutationsInverse(s: Words)
    ensures Final(Initial(s)) == s && Initial(Final(s)) == s
  {
    hide Exchange4, Exchange16, Exchange2, Exchange8, ExchangeOdd, RotateLeft, RotateRight;
    FinalInitial(s);
    InitialFinal(s);
  }

  lemma FinalInitial(s: Words)
    ensures Final(Initial(s)) == s
  {
    hide Exchange4, Exchange16, Exchange2, Exchange8, ExchangeOdd, RotateLeft, RotateRight;
    var a := Exchange4(s);
    var b := Swap(Exchange16(a));
    var c := Exchange2(b);
    var t := Exchange8(c);
    RotateBack(t.left);
    OddTwice(Words(t.right, RotateLeft(t.left)));
    RotateBack(ExchangeOdd(Words(t.right, RotateLeft(t.left))).left);
    Exchange8Twice(c);
    Exchange2Twice(b);
    Exchange16Twice(a);
    Exchange4Twice(s);
  }

  lemma InitialFinal(s: Words)
    ensures Initial(Final(s)) == s
  {
    hide Exchange4, Exchange16, Exchange2, Exchange8, ExchangeOdd, RotateLeft, RotateRight;
    RotateBack(s.left);
    var o := Words(RotateRight(s.left), s.right);
    OddTwice(o);
    var e := ExchangeOdd(o);
    RotateBack(e.right);
    var a := Words(RotateRight(e.right), e.left);
    var b := Exchange8(a);
    var c := Swap(Exchange2(b));
    var d := Exchange16(c);
    Exchange4Twice(d);
    Exchange16Twice(c);
    Exchange2Twice(b);
    Exchange8Twice(a);
  }

  // ---------- bytes ----------

  type Block = s: seq<bv8> | |s| == 8 witness [0, 0, 0, 0, 0, 0, 0, 0]

  function Word(a: bv8, b: bv8, c: bv8, d: bv8): bv32
  {
    ((a as bv32) << 24) | ((b as bv32) << 16) | ((c as bv32) << 8) | (d as bv32)
  }

  /** READ_64BIT_DATA */
  function Read(b: Block): Words
  {
    Words(Word(b[0], b[1], b[2], b[3]), Word(b[4], b[5], b[6], b[7]))
  }

  function Byte(x: bv32): bv8 { (x & 0xff) as bv8 }

  function Bytes(x: bv32): seq<bv8>
  {
    [Byte(x >> 24), Byte(x >> 16), Byte(x >> 8), Byte(x)]
  }

  /** WRITE_64BIT_DATA */
  function Write(s: Words): Block
  {
    Bytes(s.left) + Bytes(s.right)
  }

  lemma WordBytes(a: bv8, b: bv8, c: bv8, d: bv8)
    ensures Bytes(Word(a, b, c, d)) == [a, b, c, d]
  {
  }

  lemma BytesWord(x: bv32)
    ensures var b := Bytes(x); Word(b[0], b[1], b[2], b[3]) == x
  {
  }

  lemma ReadWrite(b: Block, s: Words)
    ensures Write(Read(b)) == b && Read(Write(s)) == s
  {
    hide Word, Byte;
    WordBytes(b[0], b[1], b[2], b[3]);
    WordBytes(b[4], b[5], b[6], b[7]);
    BytesWord(s.left);
    BytesWord(s.right);
  }

  // ---------- rounds ----------

  /** The low six bits, the index into an S-box. */
  function Six(x: bv32): (i: nat)
    ensures i < 64
  {
    ((x & 0x3f) as bv6) as nat
  }

  function S1(x: bv32): bv32 { Entry(SBOX1, Six(x)) }

  function S2(x: bv32): bv32 { Entry(SBOX2, Six(x)) }

  function S3(x: bv32): bv32 { Entry(SBOX3, Six(x)) }

  function S4(x: bv32): bv32 { Entry(SBOX4, Six(x)) }

  function S5(x: bv32): bv32 { Entry(SBOX5, Six(x)) }

  function S6(x: bv32): bv32 { Entry(SBOX6, Six(x)) }

  function S7(x: bv32): bv32 { Entry(SBOX7, Six(x)) }

  function S8(x: bv32): bv32 { Entry(SBOX8, Six(x)) }

  /** What the first half of a round adds to the other word. */
  function EvenBoxes(work: bv32): bv32
  {
    S8(work) ^ S6(work >> 8) ^ S4(work >> 16) ^ S2(work >> 24)
  }

  /** What the second half of a round adds to the other word. */
  function OddBoxes(work: bv32): bv32
  {
    S7(work) ^ S5(work >> 8) ^ S3(work >> 16) ^ S1(work >> 24)
  }

  function Xor(x: bv32, y: bv32): bv32 { x ^ y }

  function EvenInput(from: bv32, even: bv32): bv32 { from ^ even }

  function OddInput(from: bv32, odd: bv32): bv32 { ((from << 28) | (from >> 4)) ^ odd }

  /** DES_ROUND: what the word `to` becomes. */
  function Mix(to: bv32, from: bv32, even: bv32, odd: bv32): bv32
  {
    Xor(Xor(to, EvenBoxes(EvenInput(from, even))), OddBoxes(OddInput(from, odd)))
  }

  /** The same round undoes itself. */
  lemma MixTwice(to: bv32, from: bv32, even: bv32, odd: bv32)
    ensures Mix(Mix(to, from, even, odd), from, even, odd) == to
  {
    hide EvenBoxes, OddBoxes, EvenInput, OddInput, Xor;
    XorTwice(to, EvenBoxes(EvenInput(from, even)), OddBoxes(OddInput(from, odd)));
  }

  lemma XorTwice(x: bv32, a: bv32, b: bv32)
    ensures Xor(Xor(Xor(Xor(x, a), b), a), b) == x
  {
  }

  function MixKey(to: bv32, from: bv32, k: Subkey): bv32
  {
    Mix(to, from, k.even, k.odd)
  }

  lemma MixUndoesItself()
    ensures UndoesItself(MixKey)
  {
    hide Mix;
    forall to, from, k ensures MixKey(MixKey(to, from, k), from, k) == to {
      MixTwice(to, from, k.even, k.odd);
    }
  }

  /** The subkeys that lie side by side in an array. */
  ghost function Pairs(ks: seq<bv32>): (r: seq<Subkey>)
    requires |ks| % 2 == 0
    ensures |r| == |ks| / 2
  {
    seq(|ks| / 2, i requires 0 <= i < |ks| / 2 => Subkey(ks[2 * i], ks[2 * i + 1]))
  }

  /** The subkey pairs in the opposite order. */
  ghost function Backwards(ks: seq<bv32>): (r: seq<bv32>)
    requires |ks| % 2 == 0
    ensures |r| == |ks|
  {
    seq(|ks|, i requires 0 <= i < |ks| => if i % 2 == 0 then ks[|ks| - 2 - i] else ks[|ks| - i])
  }

  lemma BackwardsPair(ks: seq<bv32>, n: nat, m: nat)
    requires |ks| == 2 * n && 0 < m <= n
    ensures Backwards(ks)[2 * m - 2] == ks[2 * (n - m)] && Backwards(ks)[2 * m - 1] == ks[2 * (n - m) + 1]
  {
  }

  lemma PairsBackwards(ks: seq<bv32>)
    requires |ks| % 2 == 0
    ensures Pairs(Backwards(ks)) == Reverse(Pairs(ks))
  {
    hide Backwards, Reverse;
    var n := |ks| / 2;
    forall i | 0 <= i < n ensures Pairs(Backwards(ks))[i] == Reverse(Pairs(ks))[i] {
      BackwardsPair(ks, n, i + 1);
      ReverseAt(Pairs(ks), i);
    }
  }

  /** One DES pass with the subkeys of an array. */
  ghost function DesPass(s: Words, ks: seq<bv32>): Words
    requires |ks| % 2 == 0
  {
    Pass(MixKey, s, Pairs(ks))
  }

  lemma DesPassBack(s: Words, ks: seq<bv32>)
    requires |ks| % 2 == 0
    ensures DesPass(DesPass(s, ks), Backwards(ks)) == s
  {
    hide Pass, Backwards, Pairs, UndoesItself;
    MixUndoesItself();
    PairsBackwards(ks);
    PassBack(MixKey, s, Pairs(ks));
  }

  ghost function ThreePasses(s: Words, x: seq<bv32>, y: seq<bv32>, z: seq<bv32>): Words
    requires |x| == |y| == |z| == 32
  {
    DesPass(DesPass(DesPass(s, x), y), z)
  }

  // ---------- the ciphers on blocks ----------

  /** DES with 16 pairs of subkeys. */
  ghost function Crypt(b: Block, ks: seq<bv32>): Block
    requires |ks| == 32
  {
    Write(Final(DesPass(Initial(Read(b)), ks)))
  }

  /** Three DES passes between one initial and one final permutation. */
  ghost function Crypt3(b: Block, ks: seq<bv32>): Block
    requires |ks| == 96
  {
    Write(Final(ThreePasses(Initial(Read(b)), ks[..32], ks[32..64], ks[64..])))
  }

  /** Decryption undoes encryption, for every block and all subkeys. */
  lemma CryptBack(b: Block, ks: seq<bv32>)
    requires |ks| == 32
    ensures Crypt(Crypt(b, ks), Backwards(ks)) == b
  {
    hide DesPass, Initial, Final, Read, Write;
    var s := Initial(Read(b));
    ReadWrite(b, Final(DesPass(s, ks)));
    PermutationsInverse(DesPass(s, ks));
    DesPassBack(s, ks);
    PermutationsInverse(Read(b));
  }

  lemma Crypt3Back(b: Block, ks: seq<bv32>)
    requires |ks| == 96
    ensures Crypt3(Crypt3(b, ks), Backwards(ks)) == b
  {
    hide DesPass, Initial, Final, Read, Write;
    var x, y, z, r := ks[..32], ks[32..64], ks[64..], Backwards(ks);
    assert r[..32] == Backwards(z) && r[32..64] == Backwards(y) && r[64..] == Backwards(x);
    var s := Initial(Read(b));
    var t := DesPass(s, x);
    var u := DesPass(t, y);
    ReadWrite(b, Final(DesPass(u, z)));
    PermutationsInverse(DesPass(u, z));
    DesPassBack(u, z);
    DesPassBack(t, y);
    DesPassBack(s, x);
    PermutationsInverse(Read(b));
  }

  /** When the second pass undoes the first, only the third is left. */
  lemma Crypt3Single(b: Block, ks: seq<bv32>, k: seq<bv32>)
    requires |ks| == 96 && |k| == 32 && ks == k + Backwards(k) + ks[64..]
    ensures Crypt3(b, ks) == Crypt(b, ks[64..])
  {
    hide DesPass, Initial, Final, Read, Write;
    assert ks[..32] == k && ks[32..64] == Backwards(k);
    DesPassBack(Initial(Read(b)), k);
  }

  // ---------- the key schedule ----------

  /** The low four bits, the index into a table of permuted choice 1. */
  function Four(x: bv32): (i: nat)
    ensures i < 16
  {
    ((x & 0xf) as bv4) as nat
  }

  function Exchange0(s: Words): Words
  {
    var temp := (s.left ^ s.right) & 0x10101010;
    Words(s.left ^ temp, s.right ^ temp)
  }

  /** Permuted choice 1. */
  function KeyStart(key: Block): Words
  {
    var r := Read(key);
    var t := Exchange0(Exchange4(Swap(r)));
    Words(KeyLeft(t.right), KeyRight(t.left))
  }

  function KeyLeft(x: bv32): bv32
  {
    ((LEFTKEY_SWAP[Four(x)] << 3) | (LEFTKEY_SWAP[Four(x >> 8)] << 2)
    | (LEFTKEY_SWAP[Four(x >> 16)] << 1) | LEFTKEY_SWAP[Four(x >> 24)]
    | (LEFTKEY_SWAP[Four(x >> 5)] << 7) | (LEFTKEY_SWAP[Four(x >> 13)] << 6)
    | (LEFTKEY_SWAP[Four(x >> 21)] << 5) | (LEFTKEY_SWAP[Four(x >> 29)] << 4)) & 0x0fffffff
  }

  function KeyRight(x: bv32): bv32
  {
    ((RIGHTKEY_SWAP[Four(x >> 1)] << 3) | (RIGHTKEY_SWAP[Four(x >> 9)] << 2)
    | (RIGHTKEY_SWAP[Four(x >> 17)] << 1) | RIGHTKEY_SWAP[Four(x >> 25)]
    | (RIGHTKEY_SWAP[Four(x >> 4)] << 7) | (RIGHTKEY_SWAP[Four(x >> 12)] << 6)
    | (RIGHTKEY_SWAP[Four(x >> 20)] << 5) | (RIGHTKEY_SWAP[Four(x >> 28)] << 4)) & 0x0fffffff
  }

  /** Rotates the low 28 bits left by one or two. */
  function Rotate28(x: bv32, twice: bool): bv32
  {
    (if twice then (x << 2) | (x >> 26) else (x << 1) | (x >> 27)) & 0x0fffffff
  }

  function KeyRotate(s: Words, twice: bool): Words
  {
    Words(Rotate28(s.left, twice), Rotate28(s.right, twice))
  }

  /** Permuted choice 2, the half for the even S-boxes. */
  function EvenKey(s: Words): bv32
  {
    ((s.left << 4) & 0x24000000)
    | ((s.left << 28) & 0x10000000)
    | ((s.left << 14) & 0x08000000)
    | ((s.left << 18) & 0x02080000)
    | ((s.left << 6) & 0x01000000)
    | ((s.left << 9) & 0x00200000)
    | ((s.left >> 1) & 0x00100000)
    | ((s.left << 10) & 0x00040000)
    | ((s.left << 2) & 0x00020000)
    | ((s.left >> 10) & 0x00010000)
    | ((s.right >> 13) & 0x00002000)
    | ((s.right >> 4) & 0x00001000)
    | ((s.right << 6) & 0x00000800)
    | ((s.right >> 1) & 0x00000400)
    | ((s.right >> 14) & 0x00000200)
    | (s.right & 0x00000100)
    | ((s.right >> 5) & 0x00000020)
    | ((s.right >> 10) & 0x00000010)
    | ((s.right >> 3) & 0x00000008)
    | ((s.right >> 18) & 0x00000004)
    | ((s.right >> 26) & 0x00000002)
    | ((s.right >> 24) & 0x00000001)
  }

  /** Permuted choice 2, the half for the odd S-boxes. */
  function OddKey(s: Words): bv32
  {
    ((s.left << 15) & 0x20000000)
    | ((s.left << 17) & 0x10000000)
    | ((s.left << 10) & 0x08000000)
    | ((s.left << 22) & 0x04000000)
    | ((s.left >> 2) & 0x02000000)
    | ((s.left << 1) & 0x01000000)
    | ((s.left << 16) & 0x00200000)
    | ((s.left << 11) & 0x00100000)
    | ((s.left << 3) & 0x00080000)
    | ((s.left >> 6) & 0x00040000)
    | ((s.left << 15) & 0x00020000)
    | ((s.left >> 4) & 0x00010000)
    | ((s.right >> 2) & 0x00002000)
    | ((s.right << 8) & 0x00001000)
    | ((s.right >> 14) & 0x00000808)
    | ((s.right >> 9) & 0x00000400)
    | (s.right & 0x00000200)
    | ((s.right << 7) & 0x00000100)
    | ((s.right >> 7) & 0x00000020)
    | ((s.right >> 3) & 0x00000011)
    | ((s.right << 2) & 0x00000004)
    | ((s.right >> 21) & 0x00000002)
  }

  /** The key halves after the rotations of the first `n` rounds. */
  ghost function KeyAt(key: Block, n: nat): Words
    requires n <= 16
  {
    if n == 0 then KeyStart(key) else KeyRotate(KeyAt(key, n - 1), RotatesTwice(n - 1))
  }

  /** The 16 pairs of subkeys of a key. */
  ghost function Schedule(key: Block): (ks: seq<bv32>)
    ensures |ks| == 32
  {
    seq(32, i requires 0 <= i < 32 => if i % 2 == 0 then EvenKey(KeyAt(key, i / 2 + 1)) else OddKey(KeyAt(key, i / 2 + 1)))
  }

  lemma ScheduleAt(key: Block, r: nat)
    requires r < 16
    ensures Schedule(key)[2 * r] == EvenKey(KeyAt(key, r + 1)) && Schedule(key)[2 * r + 1] == OddKey(KeyAt(key, r + 1))
  {
    hide KeyAt, EvenKey, OddKey;
  }

  /** From `at` on, `s` holds the first `n` entries of `r`. */
  ghost predicate Holds(s: seq<bv32>, at: nat, r: seq<bv32>, n: nat)
  {
    at + n <= |s| && n <= |r| && s[at..at + n] == r[..n]
  }

  lemma HoldsNothing(s: seq<bv32>, at: nat, r: seq<bv32>)
    requires at <= |s|
    ensures Holds(s, at, r, 0)
  {
  }

  /** Storing a pair of subkeys extends the part in front of it and leaves parts elsewhere alone. */
  method Store(a: array<bv32>, i: nat, even: bv32, odd: bv32, ghost at: nat, ghost r: seq<bv32>)
    requires at <= i && i + 1 < a.Length && i - at + 1 < |r| && Holds(a[..], at, r, i - at)
    requires even == r[i - at] && odd == r[i - at + 1]
    modifies a
    ensures Holds(a[..], at, r, i - at + 2)
    ensures a[..] == old(a[..])[i := even][i + 1 := odd]
  {
    a[i] := even;
    a[i + 1] := odd;
    ghost var s := a[..];
    assert s[at..i + 2] == s[at..i] + [even, odd];
    assert r[..i - at + 2] == r[..i - at] + [even, odd];
  }

  lemma HoldsElsewhere(s: seq<bv32>, i: nat, x: bv32, y: bv32, at: nat, r: seq<bv32>, n: nat)
    requires Holds(s, at, r, n) && i + 1 < |s| && (at + n <= i || i + 2 <= at)
    ensures Holds(s[i := x][i + 1 := y], at, r, n)
  {
  }

  lemma HoldsAt(s: seq<bv32>, at: nat, r: seq<bv32>, n: nat, i: nat)
    requires Holds(s, at, r, n) && i < n
    ensures s[at + i] == r[i]
  {
    assert s[at..at + n][i] == r[..n][i];
  }

  /** des_key_schedule, into `subkey` from `at` on. */
  method KeySchedule(rawkey: Block, subkey: array<bv32>, at: nat)
    requires at + 32 <= subkey.Length
    modifies subkey
    ensures Holds(subkey[..], at, Schedule(rawkey), 32)
    ensures subkey[..at] == old(subkey[..at]) && subkey[at + 32..] == old(subkey[at + 32..])
  {
    hide KeyStart, KeyRotate, EvenKey, OddKey, Schedule, RotatesTwice, Holds;
    ghost var ks := Schedule(rawkey);
    HoldsNothing(subkey[..], at, ks);
    var s := KeyStart(rawkey);
    var round := 0;
    while round < 16
      invariant 0 <= round <= 16 && s == KeyAt(rawkey, round) && Holds(subkey[..], at, ks, 2 * round)
      invariant subkey[..at] == old(subkey[..at]) && subkey[at + 32..] == old(subkey[at + 32..])
    {
      ScheduleAt(rawkey, round);
      s := KeyRotate(s, RotatesTwice(round));
      Store(subkey, at + 2 * round, EvenKey(s), OddKey(s), at, ks);
      round := round + 1;
    }
  }

  predicate RotatesTwice(round: nat)
    requires round < 16
  {
    ROTATE_TAB[round] == 2
  }

  // ---------- contexts ----------

  /** gl_des_ctx */
  class Context {
    const encrypt: array<bv32>
    const decrypt: array<bv32>

    constructor (n: nat)
      ensures encrypt.Length == decrypt.Length == n && encrypt != decrypt && fresh(encrypt) && fresh(decrypt)
    {
      encrypt, decrypt := new bv32[n], new bv32[n];
    }
  }

  ghost predicate Sized(ctx: Context, n: nat)
  {
    ctx.encrypt.Length == ctx.decrypt.Length == n && ctx.encrypt != ctx.decrypt
  }

  /** gl_des_setkey */
  method SetKey(ctx: Context, key: Block)
    requires Sized(ctx, 32)
    modifies ctx.encrypt, ctx.decrypt
    ensures ctx.encrypt[..] == Schedule(key) && ctx.decrypt[..] == Backwards(Schedule(key))
  {
    hide Schedule, Backwards, Holds;
    ghost var ks, e := Schedule(key), ctx.encrypt;
    ghost var r := Backwards(ks);
    KeySchedule(key, ctx.encrypt, 0);
    HoldsNothing(ctx.decrypt[..], 0, r);
    var i := 0;
    while i < 32
      invariant 0 <= i <= 32 && i % 2 == 0 && Holds(ctx.encrypt[..], 0, ks, 32) && Holds(ctx.decrypt[..], 0, r, i)
    {
      BackwardsPair(ks, 16, i / 2 + 1);
      HoldsAt(ctx.encrypt[..], 0, ks, 32, 30 - i);
      HoldsAt(ctx.encrypt[..], 0, ks, 32, 31 - i);
      Store(ctx.decrypt, i, ctx.encrypt[30 - i], ctx.encrypt[31 - i], 0, r);
      i := i + 2;
    }
    HoldsAll(ctx.encrypt[..], ks);
    HoldsAll(ctx.decrypt[..], r);
  }

  lemma HoldsAll(s: seq<bv32>, r: seq<bv32>)
    requires |s| == |r| && Holds(s, 0, r, |r|)
    ensures s == r
  {
    assert s[0..|r|] == s && r[..|r|] == r;
  }

  /** The subkeys of Triple-DES: encrypt, decrypt, encrypt. */
  ghost function Schedule3(key1: Block, key2: Block, key3: Block): (ks: seq<bv32>)
    ensures |ks| == 96
  {
    Schedule(key1) + Backwards(Schedule(key2)) + Schedule(key3)
  }

  lemma Schedule3Backwards(x: seq<bv32>, y: seq<bv32>, z: seq<bv32>)
    requires |x| == |y| == |z| == 32
    ensures Backwards(x + Backwards(y) + z) == Backwards(z) + y + Backwards(x)
  {
  }

  lemma HoldsThree(s: seq<bv32>, x: seq<bv32>, y: seq<bv32>, z: seq<bv32>)
    requires |s| == 96 && |x| == |y| == |z| == 32 && Holds(s, 0, x, 32) && Holds(s, 32, y, 32) && Holds(s, 64, z, 32)
    ensures s == x + y + z
  {
    assert s == s[0..32] + s[32..64] + s[64..96];
    assert x[..32] == x && y[..32] == y && z[..32] == z;
  }

  /** Copies one pair of `src`, which holds `ks` from `from` on, to `dst`: the pairs go backwards. */
  method CopyPair(dst: array<bv32>, at: nat, src: array<bv32>, from: nat, i: nat, ghost ks: seq<bv32>)
    requires i % 2 == 0 && i < 32 == |ks| && at + 32 <= dst.Length && from + 32 <= src.Length
    requires Holds(src[..], from, ks, 32) && Holds(dst[..], at, Backwards(ks), i)
    modifies dst
    ensures Holds(dst[..], at, Backwards(ks), i + 2)
    ensures dst[..] == old(dst[..])[at + i := ks[30 - i]][at + i + 1 := ks[31 - i]]
  {
    hide Backwards, Holds;
    BackwardsPair(ks, 16, i / 2 + 1);
    HoldsAt(src[..], from, ks, 32, 30 - i);
    HoldsAt(src[..], from, ks, 32, 31 - i);
    Store(dst, at + i, src[from + 30 - i], src[from + 31 - i], at, Backwards(ks));
  }

  /** One turn of the copying loop: a pair of subkeys for each of the three passes. */
  method CopyThree(e: array<bv32>, d: array<bv32>, i: nat,
        ghost x: seq<bv32>, ghost y: seq<bv32>, ghost z: seq<bv32>)
    requires i < 32 && i % 2 == 0 && e != d && e.Length == d.Length == 96 && |x| == |y| == |z| == 32
    requires Holds(e[..], 0, x, 32) && Holds(e[..], 32, Backwards(y), i) && Holds(e[..], 64, z, 32)
    requires Holds(d[..], 0, Backwards(z), i) && Holds(d[..], 32, y, 32) && Holds(d[..], 64, Backwards(x), i)
    modifies e, d
    ensures Holds(e[..], 0, x, 32) && Holds(e[..], 32, Backwards(y), i + 2) && Holds(e[..], 64, z, 32)
    ensures Holds(d[..], 0, Backwards(z), i + 2) && Holds(d[..], 32, y, 32) && Holds(d[..], 64, Backwards(x), i + 2)
  {
    hide Backwards, Holds;
    ghost var d0 := d[..];
    CopyPair(d, 0, e, 64, i, z);
    HoldsElsewhere(d0, i, z[30 - i], z[31 - i], 32, y, 32);
    HoldsElsewhere(d0, i, z[30 - i], z[31 - i], 64, Backwards(x), i);
    ghost var e1 := e[..];
    CopyPair(e, 32, d, 32, i, y);
    HoldsElsewhere(e1, 32 + i, y[30 - i], y[31 - i], 0, x, 32);
    HoldsElsewhere(e1, 32 + i, y[30 - i], y[31 - i], 64, z, 32);
    ghost var d2 := d[..];
    CopyPair(d, 64, e, 0, i, x);
    HoldsElsewhere(d2, 64 + i, x[30 - i], x[31 - i], 0, Backwards(z), i + 2);
    HoldsElsewhere(d2, 64 + i, x[30 - i], x[31 - i], 32, y, 32);
  }

  /** gl_3des_set3keys */
  method Set3Keys(ctx: Context, key1: Block, key2: Block, key3: Block)
    requires Sized(ctx, 96)
    modifies ctx.encrypt, ctx.decrypt
    ensures ctx.encrypt[..] == Schedule3(key1, key2, key3) && ctx.decrypt[..] == Backwards(Schedule3(key1, key2, key3))
  {
    hide Schedule, Backwards, Holds;
    ghost var x, y, z := Schedule(key1), Schedule(key2), Schedule(key3);
    var e, d := ctx.encrypt, ctx.decrypt;
    KeySchedule(key1, e, 0);
    KeySchedule(key2, d, 32);
    ghost var s := e[..];
    KeySchedule(key3, e, 64);
    HoldsBelow(s, e[..], 0, x, 32, 64);
    HoldsNothing(d[..], 0, Backwards(z));
    HoldsNothing(e[..], 32, Backwards(y));
    HoldsNothing(d[..], 64, Backwards(x));
    var i := 0;
    while i < 32
      invariant 0 <= i <= 32 && i % 2 == 0
      invariant Holds(e[..], 0, x, 32) && Holds(e[..], 32, Backwards(y), i) && Holds(e[..], 64, z, 32)
      invariant Holds(d[..], 0, Backwards(z), i) && Holds(d[..], 32, y, 32) && Holds(d[..], 64, Backwards(x), i)
    {
      CopyThree(e, d, i, x, y, z);
      i := i + 2;
    }
    HoldsThree(e[..], x, Backwards(y), z);
    HoldsThree(d[..], Backwards(z), y, Backwards(x));
    Schedule3Backwards(x, y, z);
  }

  lemma HoldsBelow(s: seq<bv32>, t: seq<bv32>, at: nat, r: seq<bv32>, n: nat, limit: nat)
    requires Holds(s, at, r, n) && at + n <= limit <= |s| == |t| && s[..limit] == t[..limit]
    ensures Holds(t, at, r, n)
  {
    assert t[at..at + n] == t[..limit][at..at + n];
    assert s[at..at + n] == s[..limit][at..at + n];
  }

  /** gl_3des_set2keys: the third key is the first. */
  method Set2Keys(ctx: Context, key1: Block, key2: Block)
    requires Sized(ctx, 96)
    modifies ctx.encrypt, ctx.decrypt
    ensures ctx.encrypt[..] == Schedule3(key1, key2, key1) && ctx.decrypt[..] == Backwards(Schedule3(key1, key2, key1))
  {
    hide Schedule, Backwards, Holds;
    ghost var x, y := Schedule(key1), Schedule(key2);
    var e, d := ctx.encrypt, ctx.decrypt;
    KeySchedule(key1, e, 0);
    KeySchedule(key2, d, 32);
    HoldsNothing(d[..], 0, Backwards(x));
    HoldsNothing(e[..], 32, Backwards(y));
    HoldsNothing(e[..], 64, x);
    HoldsNothing(d[..], 64, Backwards(x));
    var i := 0;
    while i < 32
      invariant 0 <= i <= 32 && i % 2 == 0
      invariant Holds(e[..], 0, x, 32) && Holds(e[..], 32, Backwards(y), i) && Holds(e[..], 64, x, i)
      invariant Holds(d[..], 0, Backwards(x), i) && Holds(d[..], 32, y, 32) && Holds(d[..], 64, Backwards(x), i)
    {
      ghost var d0 := d[..];
      CopyPair(d, 0, e, 0, i, x);
      HoldsElsewhere(d0, i, x[30 - i], x[31 - i], 32, y, 32);
      HoldsElsewhere(d0, i, x[30 - i], x[31 - i], 64, Backwards(x), i);
      ghost var e1 := e[..];
      CopyPair(e, 32, d, 32, i, y);
      HoldsElsewhere(e1, 32 + i, y[30 - i], y[31 - i], 0, x, 32);
      HoldsElsewhere(e1, 32 + i, y[30 - i], y[31 - i], 64, x, i);
      ghost var e2, d2 := e[..], d[..];
      SamePair(e, 64, 0, i, x, 32);
      HoldsBelow(e2, e[..], 32, Backwards(y), i + 2, 64);
      SamePair(d, 64, 0, i, Backwards(x), i + 2);
      HoldsBelow(d2, d[..], 32, y, 32, 64);
      i := i + 2;
    }
    HoldsThree(e[..], x, Backwards(y), x);
    HoldsThree(d[..], Backwards(x), y, Backwards(x));
    Schedule3Backwards(x, y, x);
  }

  /** Copies one pair inside an array, in order. */
  method SamePair(a: array<bv32>, at: nat, from: nat, i: nat, ghost r: seq<bv32>, ghost n: nat)
    requires from + 64 <= at && at + 32 <= a.Length && i + 2 <= n <= 32 == |r|
    requires Holds(a[..], from, r, n) && Holds(a[..], at, r, i)
    modifies a
    ensures Holds(a[..], at, r, i + 2) && Holds(a[..], from, r, n) && a[..at] == old(a[..at])
  {
    hide Holds;
    HoldsAt(a[..], from, r, n, i);
    HoldsAt(a[..], from, r, n, i + 1);
    HoldsElsewhere(a[..], at + i, r[i], r[i + 1], from, r, n);
    Store(a, at + i, a[from + i], a[from + i + 1], at, r);
  }

  // ---------- electronic codebook mode ----------

  /** DES_ROUND */
  method DesRound(from: bv32, to: bv32, even: bv32, odd: bv32) returns (r: bv32)
    ensures r == Mix(to, from, even, odd)
  {
    hide EvenBoxes, OddBoxes, Xor;
    var work := from ^ even;
    r := AddEven(to, work);
    work := ((from << 28) | (from >> 4)) ^ odd;
    r := AddOdd(r, work);
  }

  method AddEven(to: bv32, work: bv32) returns (r: bv32)
    ensures r == Xor(to, EvenBoxes(work))
  {
    hide S2, S4, S6, S8;
    r := to ^ S8(work);
    r := r ^ S6(work >> 8);
    r := r ^ S4(work >> 16);
    r := r ^ S2(work >> 24);
  }

  method AddOdd(to: bv32, work: bv32) returns (r: bv32)
    ensures r == Xor(to, OddBoxes(work))
  {
    hide S1, S3, S5, S7;
    r := to ^ S7(work);
    r := r ^ S5(work >> 8);
    r := r ^ S3(work >> 16);
    r := r ^ S1(work >> 24);
  }

  /** Sixteen rounds, which the source writes out in eight lines of two, with the subkeys from
      `at` on. */
  method SixteenRounds(l: bv32, r: bv32, keys: array<bv32>, at: nat) returns (left: bv32, right: bv32)
    requires at + 32 <= keys.Length
    ensures Words(right, left) == DesPass(Words(l, r), keys[at..at + 32])
  {
    hide Mix, Rounds, Pairs;
    ghost var s, ks := Words(l, r), keys[at..at + 32];
    ghost var ps := Pairs(ks);
    left, right := l, r;
    RoundsStart(MixKey, s);
    assert ps[..0] == [] && ps[..16] == ps;
    var i := 0;
    while i < 8
      invariant 0 <= i <= 8 && Words(left, right) == Rounds(MixKey, s, ps[..2 * i])
    {
      RoundsStep(MixKey, s, ps, 2 * i);
      RoundsStep(MixKey, s, ps, 2 * i + 1);
      PairsAt(ks, 2 * i);
      PairsAt(ks, 2 * i + 1);
      var j := at + 4 * i;
      left := DesRound(right, left, keys[j], keys[j + 1]);
      right := DesRound(left, right, keys[j + 2], keys[j + 3]);
      i := i + 1;
    }
  }

  lemma PairsAt(ks: seq<bv32>, i: nat)
    requires |ks| % 2 == 0 && 2 * i < |ks|
    ensures Pairs(ks)[i] == Subkey(ks[2 * i], ks[2 * i + 1])
  {
  }

  /** The number of bytes in front of the first zero, or 8. */
  ghost predicate IsTextLength(b: Block, n: nat)
  {
    if b[7] != 0 then n == 8 else n < 8 && b[n] == 0 && forall i :: 0 <= i < n ==> b[i] != 0
  }

  /** gl_des_ecb_crypt; `from` and `to` may be the same buffer. */
  method EcbCrypt(ctx: Context, from: array<bv8>, to: array<bv8>, decrypt: bool) returns (n: nat)
    requires Sized(ctx, 32) && from.Length >= 8 && to.Length >= 8
    modifies to
    ensures to[..8] == Crypt(old(from[..8]), if decrypt then ctx.decrypt[..] else ctx.encrypt[..])
    ensures to[8..] == old(to[8..]) && IsTextLength(to[..8], n)
  {
    hide DesPass, Initial, Final, Read, Write;
    var keys := if decrypt then ctx.decrypt else ctx.encrypt;
    assert keys[0..32] == keys[..];
    var s := Initial(Read(from[..8]));
    var left, right := SixteenRounds(s.left, s.right, keys, 0);
    Put(to, Write(Final(Words(right, left))));
    n := 8;
    if to[7] == 0 {
      n := 0;
      while to[n] != 0
        invariant 0 <= n <= 7 && forall i :: 0 <= i < n ==> to[i] != 0
        decreases 8 - n
      {
        n := n + 1;
      }
    }
  }

  method Put(to: array<bv8>, b: Block)
    requires to.Length >= 8
    modifies to
    ensures to[..8] == b && to[8..] == old(to[8..])
  {
    forall k | 0 <= k < 8 { to[k] := b[k]; }
  }

  /** gl_3des_ecb_crypt: the passes run into each other without permutations between them. */
  method EcbCrypt3(ctx: Context, from: array<bv8>, to: array<bv8>, decrypt: bool)
    requires Sized(ctx, 96) && from.Length >= 8 && to.Length >= 8
    modifies to
    ensures to[..8] == Crypt3(old(from[..8]), if decrypt then ctx.decrypt[..] else ctx.encrypt[..])
    ensures to[8..] == old(to[8..])
  {
    hide DesPass, Initial, Final, Read, Write;
    var keys := if decrypt then ctx.decrypt else ctx.encrypt;
    Thirds(keys[..]);
    var s := Initial(Read(from[..8]));
    var left, right := SixteenRounds(s.left, s.right, keys, 0);
    right, left := SixteenRounds(right, left, keys, 32);
    left, right := SixteenRounds(left, right, keys, 64);
    Put(to, Write(Final(Words(right, left))));
  }

  lemma Thirds(ks: seq<bv32>)
    requires |ks| == 96
    ensures ks[0..32] == ks[..32] && ks[64..96] == ks[64..]
  {
  }

  // ---------- what the ciphers promise ----------

  /** DES decryption inverts encryption for every key and block. */
  lemma DesRoundTrip(key: Block, b: Block)
    ensures Crypt(Crypt(b, Schedule(key)), Backwards(Schedule(key))) == b
  {
    CryptBack(b, Schedule(key));
  }

  /** Triple-DES decryption inverts encryption for all keys and blocks. */
  lemma TripleDesRoundTrip(key1: Block, key2: Block, key3: Block, b: Block)
    ensures var ks := Schedule3(key1, key2, key3); Crypt3(Crypt3(b, ks), Backwards(ks)) == b
  {
    Crypt3Back(b, Schedule3(key1, key2, key3));
  }

  /** Triple-DES with equal first and second keys is DES under the third. */
  lemma TripleDesIsDes(key: Block, key3: Block, b: Block)
    ensures Crypt3(b, Schedule3(key, key, key3)) == Crypt(b, Schedule(key3))
  {
    hide Schedule, Backwards, Crypt, Crypt3;
    var ks := Schedule3(key, key, key3);
    assert ks[64..] == Schedule(key3);
    Crypt3Single(b, ks, Schedule(key));
  }

  /** Triple-DES is three DES operations in a row: encrypt, decrypt, encrypt. */
  lemma TripleDesIsThreeDes(key1: Block, key2: Block, key3: Block, b: Block)
    ensures Crypt3(b, Schedule3(key1, key2, key3)) ==
      Crypt(Crypt(Crypt(b, Schedule(key1)), Backwards(Schedule(key2))), Schedule(key3))
  {
    hide Schedule, Backwards, DesPass, Initial, Final, Read, Write;
    var x, y, z, ks := Schedule(key1), Backwards(Schedule(key2)), Schedule(key3), Schedule3(key1, key2, key3);
    assert ks[..32] == x && ks[32..64] == y && ks[64..] == z;
    var s := DesPass(Initial(Read(b)), x);
    ReadWrite(b, Final(s));
    PermutationsInverse(s);
    var t := DesPass(s, y);
    ReadWrite(b, Final(t));
    PermutationsInverse(t);
  }
}
