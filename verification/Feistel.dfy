/** Feistel networks over any round function that undoes itself. */
module Feistel {

  /** The two halves of a block. */
  datatype Words = Words(left: bv32, right: bv32)

  /** The two subkeys of a round. */
  datatype Subkey = Subkey(even: bv32, odd: bv32)

  /** What the word `to` becomes in a round with the other word `from`. */
  type Mixer = (bv32, bv32, Subkey) -> bv32

  ghost predicate UndoesItself(mix: Mixer)
  {
    forall to, from, k :: mix(mix(to, from, k), from, k) == to
  }

  function Swap(s: Words): Words { Words(s.right, s.left) }

  function Round(mix: Mixer, s: Words, k: Subkey): Words
  {
    Words(s.right, mix(s.left, s.right, k))
  }

  /** All rounds, in the order of the subkeys. */
  function Rounds(mix: Mixer, s: Words, ks: seq<Subkey>): Words
  {
    if ks == [] then s else Round(mix, Rounds(mix, s, ks[..|ks| - 1]), ks[|ks| - 1])
  }

  /** All rounds, then the exchange of the words. */
  function Pass(mix: Mixer, s: Words, ks: seq<Subkey>): Words
  {
    Swap(Rounds(mix, s, ks))
  }

  function Reverse(ks: seq<Subkey>): (r: seq<Subkey>)
    ensures |r| == |ks|
  {
    if ks == [] then [] else [ks[|ks| - 1]] + Reverse(ks[..|ks| - 1])
  }

  lemma {:induction false} ReverseAt(ks: seq<Subkey>, i: nat)
    requires i < |ks|
    ensures Reverse(ks)[i] == ks[|ks| - 1 - i]
  {
    if i > 0 { ReverseAt(ks[..|ks| - 1], i - 1); }
  }

  lemma {:induction false} RoundsConcat(mix: Mixer, s: Words, p: seq<Subkey>, q: seq<Subkey>)
    ensures Rounds(mix, s, p + q) == Rounds(mix, Rounds(mix, s, p), q)
  {
    if q == [] {
      assert p + q == p;
    } else {
      assert (p + q)[..|p + q| - 1] == p + q[..|q| - 1];
      RoundsConcat(mix, s, p, q[..|q| - 1]);
    }
  }

  lemma RoundsOne(mix: Mixer, s: Words, k: Subkey)
    ensures Rounds(mix, s, [k]) == Round(mix, s, k)
  {
    assert [k][..0] == [];
  }

  lemma RoundBack(mix: Mixer, s: Words, k: Subkey)
    requires UndoesItself(mix)
    ensures Round(mix, Swap(Round(mix, s, k)), k) == Swap(s)
  {
  }

  /** The rounds with the subkeys in the opposite order take the exchanged words back. */
  lemma {:induction false} RoundsBack(mix: Mixer, s: Words, ks: seq<Subkey>)
    requires UndoesItself(mix)
    ensures Rounds(mix, Swap(Rounds(mix, s, ks)), Reverse(ks)) == Swap(s)
  {
    hide UndoesItself;
    if ks != [] {
      var front, k := ks[..|ks| - 1], ks[|ks| - 1];
      var t := Rounds(mix, s, front);
      RoundsConcat(mix, Swap(Rounds(mix, s, ks)), [k], Reverse(front));
      RoundsOne(mix, Swap(Rounds(mix, s, ks)), k);
      RoundBack(mix, t, k);
      RoundsBack(mix, s, front);
    }
  }

  /** A pass with the subkeys in the opposite order undoes a pass. */
  lemma PassBack(mix: Mixer, s: Words, ks: seq<Subkey>)
    requires UndoesItself(mix)
    ensures Pass(mix, Pass(mix, s, ks), Reverse(ks)) == s
  {
    RoundsBack(mix, s, ks);
  }

  lemma RoundsStart(mix: Mixer, s: Words)
    ensures Rounds(mix, s, []) == s
  {
  }

  lemma RoundsStep(mix: Mixer, s: Words, ks: seq<Subkey>, n: nat)
    requires n < |ks|
    ensures Rounds(mix, s, ks[..n + 1]) == Round(mix, Rounds(mix, s, ks[..n]), ks[n])
  {
    assert ks[..n + 1][..n] == ks[..n];
  }
}
