/** DES as section 3 of NIST SP 800-67 defines it, bit by bit, and the proof that the tables and
    word operations of src/fast_math.c compute the same.  Bit 1 is the most significant bit of
    the left word. */
module DesStandard {
  import opened DesTables
  import opened Feistel
  import opened Des

  // ---------- the permutations of a block ----------

  /** The permutation IP: in turn the bits
      58 50 42 34 26 18 10 2 60 52 44 36 28 20 12 4
      62 54 46 38 30 22 14 6 64 56 48 40 32 24 16 8
      57 49 41 33 25 17 9 1 59 51 43 35 27 19 11 3
      61 53 45 37 29 21 13 5 63 55 47 39 31 23 15 7 */
  function StdInitial(s: Words): Words
  {
    Words(StdInitialLeft(s), StdInitialRight(s))
  }

  function StdInitialLeft(s: Words): bv32
  {
    (((s.right >> 6) & 1) << 31) | (((s.right >> 14) & 1) << 30) | (((s.right >> 22) & 1) << 29) | (((s.right >> 30) & 1) << 28)
    | (((s.left >> 6) & 1) << 27) | (((s.left >> 14) & 1) << 26) | (((s.left >> 22) & 1) << 25) | (((s.left >> 30) & 1) << 24)
    | (((s.right >> 4) & 1) << 23) | (((s.right >> 12) & 1) << 22) | (((s.right >> 20) & 1) << 21) | (((s.right >> 28) & 1) << 20)
    | (((s.left >> 4) & 1) << 19) | (((s.left >> 12) & 1) << 18) | (((s.left >> 20) & 1) << 17) | (((s.left >> 28) & 1) << 16)
    | (((s.right >> 2) & 1) << 15) | (((s.right >> 10) & 1) << 14) | (((s.right >> 18) & 1) << 13) | (((s.right >> 26) & 1) << 12)
    | (((s.left >> 2) & 1) << 11) | (((s.left >> 10) & 1) << 10) | (((s.left >> 18) & 1) << 9) | (((s.left >> 26) & 1) << 8)
    | ((s.right & 1) << 7) | (((s.right >> 8) & 1) << 6) | (((s.right >> 16) & 1) << 5) | (((s.right >> 24) & 1) << 4)
    | ((s.left & 1) << 3) | (((s.left >> 8) & 1) << 2) | (((s.left >> 16) & 1) << 1) | ((s.left >> 24) & 1)
  }

  function StdInitialRight(s: Words): bv32
  {
    (((s.right >> 7) & 1) << 31) | (((s.right >> 15) & 1) << 30) | (((s.right >> 23) & 1) << 29) | (((s.right >> 31) & 1) << 28)
    | (((s.left >> 7) & 1) << 27) | (((s.left >> 15) & 1) << 26) | (((s.left >> 23) & 1) << 25) | (((s.left >> 31) & 1) << 24)
    | (((s.right >> 5) & 1) << 23) | (((s.right >> 13) & 1) << 22) | (((s.right >> 21) & 1) << 21) | (((s.right >> 29) & 1) << 20)
    | (((s.left >> 5) & 1) << 19) | (((s.left >> 13) & 1) << 18) | (((s.left >> 21) & 1) << 17) | (((s.left >> 29) & 1) << 16)
    | (((s.right >> 3) & 1) << 15) | (((s.right >> 11) & 1) << 14) | (((s.right >> 19) & 1) << 13) | (((s.right >> 27) & 1) << 12)
    | (((s.left >> 3) & 1) << 11) | (((s.left >> 11) & 1) << 10) | (((s.left >> 19) & 1) << 9) | (((s.left >> 27) & 1) << 8)
    | (((s.right >> 1) & 1) << 7) | (((s.right >> 9) & 1) << 6) | (((s.right >> 17) & 1) << 5) | (((s.right >> 25) & 1) << 4)
    | (((s.left >> 1) & 1) << 3) | (((s.left >> 9) & 1) << 2) | (((s.left >> 17) & 1) << 1) | ((s.left >> 25) & 1)
  }

  /** The permutation inverse to IP: in turn the bits
      40 8 48 16 56 24 64 32 39 7 47 15 55 23 63 31
      38 6 46 14 54 22 62 30 37 5 45 13 53 21 61 29
      36 4 44 12 52 20 60 28 35 3 43 11 51 19 59 27
      34 2 42 10 50 18 58 26 33 1 41 9 49 17 57 25 */
  function StdFinal(s: Words): Words
  {
    Words(StdFinalLeft(s), StdFinalRight(s))
  }

  function StdFinalLeft(s: Words): bv32
  {
    (((s.right >> 24) & 1) << 31) | (((s.left >> 24) & 1) << 30) | (((s.right >> 16) & 1) << 29) | (((s.left >> 16) & 1) << 28)
    | (((s.right >> 8) & 1) << 27) | (((s.left >> 8) & 1) << 26) | ((s.right & 1) << 25) | ((s.left & 1) << 24)
    | (((s.right >> 25) & 1) << 23) | (((s.left >> 25) & 1) << 22) | (((s.right >> 17) & 1) << 21) | (((s.left >> 17) & 1) << 20)
    | (((s.right >> 9) & 1) << 19) | (((s.left >> 9) & 1) << 18) | (((s.right >> 1) & 1) << 17) | (((s.left >> 1) & 1) << 16)
    | (((s.right >> 26) & 1) << 15) | (((s.left >> 26) & 1) << 14) | (((s.right >> 18) & 1) << 13) | (((s.left >> 18) & 1) << 12)
    | (((s.right >> 10) & 1) << 11) | (((s.left >> 10) & 1) << 10) | (((s.right >> 2) & 1) << 9) | (((s.left >> 2) & 1) << 8)
    | (((s.right >> 27) & 1) << 7) | (((s.left >> 27) & 1) << 6) | (((s.right >> 19) & 1) << 5) | (((s.left >> 19) & 1) << 4)
    | (((s.right >> 11) & 1) << 3) | (((s.left >> 11) & 1) << 2) | (((s.right >> 3) & 1) << 1) | ((s.left >> 3) & 1)
  }

  function StdFinalRight(s: Words): bv32
  {
    (((s.right >> 28) & 1) << 31) | (((s.left >> 28) & 1) << 30) | (((s.right >> 20) & 1) << 29) | (((s.left >> 20) & 1) << 28)
    | (((s.right >> 12) & 1) << 27) | (((s.left >> 12) & 1) << 26) | (((s.right >> 4) & 1) << 25) | (((s.left >> 4) & 1) << 24)
    | (((s.right >> 29) & 1) << 23) | (((s.left >> 29) & 1) << 22) | (((s.right >> 21) & 1) << 21) | (((s.left >> 21) & 1) << 20)
    | (((s.right >> 13) & 1) << 19) | (((s.left >> 13) & 1) << 18) | (((s.right >> 5) & 1) << 17) | (((s.left >> 5) & 1) << 16)
    | (((s.right >> 30) & 1) << 15) | (((s.left >> 30) & 1) << 14) | (((s.right >> 22) & 1) << 13) | (((s.left >> 22) & 1) << 12)
    | (((s.right >> 14) & 1) << 11) | (((s.left >> 14) & 1) << 10) | (((s.right >> 6) & 1) << 9) | (((s.left >> 6) & 1) << 8)
    | (((s.right >> 31) & 1) << 7) | (((s.left >> 31) & 1) << 6) | (((s.right >> 23) & 1) << 5) | (((s.left >> 23) & 1) << 4)
    | (((s.right >> 15) & 1) << 3) | (((s.left >> 15) & 1) << 2) | (((s.right >> 7) & 1) << 1) | ((s.left >> 7) & 1)
  }

  // ---------- the key schedule ----------

  /** Permuted choice 1, the 28-bit halves C and D: in turn the bits
      57 49 41 33 25 17 9 1 58 50 42 34 26 18
      10 2 59 51 43 35 27 19 11 3 60 52 44 36
      63 55 47 39 31 23 15 7 62 54 46 38 30 22
      14 6 61 53 45 37 29 21 13 5 28 20 12 4 */
  function StdKeyStart(s: Words): Words
  {
    Words(StdKeyStartLeft(s), StdKeyStartRight(s))
  }

  function StdKeyStartLeft(s: Words): bv32
  {
    (((s.right >> 7) & 1) << 27) | (((s.right >> 15) & 1) << 26) | (((s.right >> 23) & 1) << 25) | (((s.right >> 31) & 1) << 24)
    | (((s.left >> 7) & 1) << 23) | (((s.left >> 15) & 1) << 22) | (((s.left >> 23) & 1) << 21) | (((s.left >> 31) & 1) << 20)
    | (((s.right >> 6) & 1) << 19) | (((s.right >> 14) & 1) << 18) | (((s.right >> 22) & 1) << 17) | (((s.right >> 30) & 1) << 16)
    | (((s.left >> 6) & 1) << 15) | (((s.left >> 14) & 1) << 14) | (((s.left >> 22) & 1) << 13) | (((s.left >> 30) & 1) << 12)
    | (((s.right >> 5) & 1) << 11) | (((s.right >> 13) & 1) << 10) | (((s.right >> 21) & 1) << 9) | (((s.right >> 29) & 1) << 8)
    | (((s.left >> 5) & 1) << 7) | (((s.left >> 13) & 1) << 6) | (((s.left >> 21) & 1) << 5) | (((s.left >> 29) & 1) << 4)
    | (((s.right >> 4) & 1) << 3) | (((s.right >> 12) & 1) << 2) | (((s.right >> 20) & 1) << 1) | ((s.right >> 28) & 1)
  }

  function StdKeyStartRight(s: Words): bv32
  {
    (((s.right >> 1) & 1) << 27) | (((s.right >> 9) & 1) << 26) | (((s.right >> 17) & 1) << 25) | (((s.right >> 25) & 1) << 24)
    | (((s.left >> 1) & 1) << 23) | (((s.left >> 9) & 1) << 22) | (((s.left >> 17) & 1) << 21) | (((s.left >> 25) & 1) << 20)
    | (((s.right >> 2) & 1) << 19) | (((s.right >> 10) & 1) << 18) | (((s.right >> 18) & 1) << 17) | (((s.right >> 26) & 1) << 16)
    | (((s.left >> 2) & 1) << 15) | (((s.left >> 10) & 1) << 14) | (((s.left >> 18) & 1) << 13) | (((s.left >> 26) & 1) << 12)
    | (((s.right >> 3) & 1) << 11) | (((s.right >> 11) & 1) << 10) | (((s.right >> 19) & 1) << 9) | (((s.right >> 27) & 1) << 8)
    | (((s.left >> 3) & 1) << 7) | (((s.left >> 11) & 1) << 6) | (((s.left >> 19) & 1) << 5) | (((s.left >> 27) & 1) << 4)
    | (((s.left >> 4) & 1) << 3) | (((s.left >> 12) & 1) << 2) | (((s.left >> 20) & 1) << 1) | ((s.left >> 28) & 1)
  }

  /** Permuted choice 2, the six bits for S-box 1: 14 17 11 24 1 5 */
  function StdKey1(s: Words): bv32
  {
    (((s.left >> 14) & 1) << 5) | (((s.left >> 11) & 1) << 4) | (((s.left >> 17) & 1) << 3) | (((s.left >> 4) & 1) << 2)
    | (((s.left >> 27) & 1) << 1) | ((s.left >> 23) & 1)
  }

  /** Permuted choice 2, the six bits for S-box 2: 3 28 15 6 21 10 */
  function StdKey2(s: Words): bv32
  {
    (((s.left >> 25) & 1) << 5) | ((s.left & 1) << 4) | (((s.left >> 13) & 1) << 3) | (((s.left >> 22) & 1) << 2)
    | (((s.left >> 7) & 1) << 1) | ((s.left >> 18) & 1)
  }

  /** Permuted choice 2, the six bits for S-box 3: 23 19 12 4 26 8 */
  function StdKey3(s: Words): bv32
  {
    (((s.left >> 5) & 1) << 5) | (((s.left >> 9) & 1) << 4) | (((s.left >> 16) & 1) << 3) | (((s.left >> 24) & 1) << 2)
    | (((s.left >> 2) & 1) << 1) | ((s.left >> 20) & 1)
  }

  /** Permuted choice 2, the six bits for S-box 4: 16 7 27 20 13 2 */
  function StdKey4(s: Words): bv32
  {
    (((s.left >> 12) & 1) << 5) | (((s.left >> 21) & 1) << 4) | (((s.left >> 1) & 1) << 3) | (((s.left >> 8) & 1) << 2)
    | (((s.left >> 15) & 1) << 1) | ((s.left >> 26) & 1)
  }

  /** Permuted choice 2, the six bits for S-box 5: 41 52 31 37 47 55 */
  function StdKey5(s: Words): bv32
  {
    (((s.right >> 15) & 1) << 5) | (((s.right >> 4) & 1) << 4) | (((s.right >> 25) & 1) << 3) | (((s.right >> 19) & 1) << 2)
    | (((s.right >> 9) & 1) << 1) | ((s.right >> 1) & 1)
  }

  /** Permuted choice 2, the six bits for S-box 6: 30 40 51 45 33 48 */
  function StdKey6(s: Words): bv32
  {
    (((s.right >> 26) & 1) << 5) | (((s.right >> 16) & 1) << 4) | (((s.right >> 5) & 1) << 3) | (((s.right >> 11) & 1) << 2)
    | (((s.right >> 23) & 1) << 1) | ((s.right >> 8) & 1)
  }

  /** Permuted choice 2, the six bits for S-box 7: 44 49 39 56 34 53 */
  function StdKey7(s: Words): bv32
  {
    (((s.right >> 12) & 1) << 5) | (((s.right >> 7) & 1) << 4) | (((s.right >> 17) & 1) << 3) | ((s.right & 1) << 2)
    | (((s.right >> 22) & 1) << 1) | ((s.right >> 3) & 1)
  }

  /** Permuted choice 2, the six bits for S-box 8: 46 42 50 36 29 32 */
  function StdKey8(s: Words): bv32
  {
    (((s.right >> 10) & 1) << 5) | (((s.right >> 14) & 1) << 4) | (((s.right >> 6) & 1) << 3) | (((s.right >> 20) & 1) << 2)
    | (((s.right >> 27) & 1) << 1) | ((s.right >> 24) & 1)
  }

  // ---------- the function f ----------

  /** The expansion E, the six bits for S-box 1. */
  function StdExpand1(r: bv32): bv32
  {
    ((r & 1) << 5) | (((r >> 31) & 1) << 4) | (((r >> 30) & 1) << 3) | (((r >> 29) & 1) << 2)
    | (((r >> 28) & 1) << 1) | ((r >> 27) & 1)
  }

  /** The expansion E, the six bits for S-box 2. */
  function StdExpand2(r: bv32): bv32
  {
    (((r >> 28) & 1) << 5) | (((r >> 27) & 1) << 4) | (((r >> 26) & 1) << 3) | (((r >> 25) & 1) << 2)
    | (((r >> 24) & 1) << 1) | ((r >> 23) & 1)
  }

  /** The expansion E, the six bits for S-box 3. */
  function StdExpand3(r: bv32): bv32
  {
    (((r >> 24) & 1) << 5) | (((r >> 23) & 1) << 4) | (((r >> 22) & 1) << 3) | (((r >> 21) & 1) << 2)
    | (((r >> 20) & 1) << 1) | ((r >> 19) & 1)
  }

  /** The expansion E, the six bits for S-box 4. */
  function StdExpand4(r: bv32): bv32
  {
    (((r >> 20) & 1) << 5) | (((r >> 19) & 1) << 4) | (((r >> 18) & 1) << 3) | (((r >> 17) & 1) << 2)
    | (((r >> 16) & 1) << 1) | ((r >> 15) & 1)
  }

  /** The expansion E, the six bits for S-box 5. */
  function StdExpand5(r: bv32): bv32
  {
    (((r >> 16) & 1) << 5) | (((r >> 15) & 1) << 4) | (((r >> 14) & 1) << 3) | (((r >> 13) & 1) << 2)
    | (((r >> 12) & 1) << 1) | ((r >> 11) & 1)
  }

  /** The expansion E, the six bits for S-box 6. */
  function StdExpand6(r: bv32): bv32
  {
    (((r >> 12) & 1) << 5) | (((r >> 11) & 1) << 4) | (((r >> 10) & 1) << 3) | (((r >> 9) & 1) << 2)
    | (((r >> 8) & 1) << 1) | ((r >> 7) & 1)
  }

  /** The expansion E, the six bits for S-box 7. */
  function StdExpand7(r: bv32): bv32
  {
    (((r >> 8) & 1) << 5) | (((r >> 7) & 1) << 4) | (((r >> 6) & 1) << 3) | (((r >> 5) & 1) << 2)
    | (((r >> 4) & 1) << 1) | ((r >> 3) & 1)
  }

  /** The expansion E, the six bits for S-box 8. */
  function StdExpand8(r: bv32): bv32
  {
    (((r >> 4) & 1) << 5) | (((r >> 3) & 1) << 4) | (((r >> 2) & 1) << 3) | (((r >> 1) & 1) << 2)
    | ((r & 1) << 1) | ((r >> 31) & 1)
  }

  /** The permutation P: in turn the bits
      16 7 20 21 29 12 28 17 1 15 23 26 5 18 31 10
      2 8 24 14 32 27 3 9 19 13 30 6 22 11 4 25 */
  function StdP(x: bv32): bv32
  {
    (((x >> 16) & 1) << 31) | (((x >> 25) & 1) << 30) | (((x >> 12) & 1) << 29) | (((x >> 11) & 1) << 28)
    | (((x >> 3) & 1) << 27) | (((x >> 20) & 1) << 26) | (((x >> 4) & 1) << 25) | (((x >> 15) & 1) << 24)
    | (((x >> 31) & 1) << 23) | (((x >> 17) & 1) << 22) | (((x >> 9) & 1) << 21) | (((x >> 6) & 1) << 20)
    | (((x >> 27) & 1) << 19) | (((x >> 14) & 1) << 18) | (((x >> 1) & 1) << 17) | (((x >> 22) & 1) << 16)
    | (((x >> 30) & 1) << 15) | (((x >> 24) & 1) << 14) | (((x >> 8) & 1) << 13) | (((x >> 18) & 1) << 12)
    | ((x & 1) << 11) | (((x >> 5) & 1) << 10) | (((x >> 29) & 1) << 9) | (((x >> 23) & 1) << 8)
    | (((x >> 13) & 1) << 7) | (((x >> 19) & 1) << 6) | (((x >> 2) & 1) << 5) | (((x >> 26) & 1) << 4)
    | (((x >> 10) & 1) << 3) | (((x >> 21) & 1) << 2) | (((x >> 28) & 1) << 1) | ((x >> 7) & 1)
  }

  const S1_ROWS: Table := [
    [14, 4, 13, 1, 2, 15, 11, 8, 3, 10, 6, 12, 5, 9, 0, 7],
    [0, 15, 7, 4, 14, 2, 13, 1, 10, 6, 12, 11, 9, 5, 3, 8],
    [4, 1, 14, 8, 13, 6, 2, 11, 15, 12, 9, 7, 3, 10, 5, 0],
    [15, 12, 8, 2, 4, 9, 1, 7, 5, 11, 3, 14, 10, 0, 6, 13]
  ]

  const S2_ROWS: Table := [
    [15, 1, 8, 14, 6, 11, 3, 4, 9, 7, 2, 13, 12, 0, 5, 10],
    [3, 13, 4, 7, 15, 2, 8, 14, 12, 0, 1, 10, 6, 9, 11, 5],
    [0, 14, 7, 11, 10, 4, 13, 1, 5, 8, 12, 6, 9, 3, 2, 15],
    [13, 8, 10, 1, 3, 15, 4, 2, 11, 6, 7, 12, 0, 5, 14, 9]
  ]

  const S3_ROWS: Table := [
    [10, 0, 9, 14, 6, 3, 15, 5, 1, 13, 12, 7, 11, 4, 2, 8],
    [13, 7, 0, 9, 3, 4, 6, 10, 2, 8, 5, 14, 12, 11, 15, 1],
    [13, 6, 4, 9, 8, 15, 3, 0, 11, 1, 2, 12, 5, 10, 14, 7],
    [1, 10, 13, 0, 6, 9, 8, 7, 4, 15, 14, 3, 11, 5, 2, 12]
  ]

  const S4_ROWS: Table := [
    [7, 13, 14, 3, 0, 6, 9, 10, 1, 2, 8, 5, 11, 12, 4, 15],
    [13, 8, 11, 5, 6, 15, 0, 3, 4, 7, 2, 12, 1, 10, 14, 9],
    [10, 6, 9, 0, 12, 11, 7, 13, 15, 1, 3, 14, 5, 2, 8, 4],
    [3, 15, 0, 6, 10, 1, 13, 8, 9, 4, 5, 11, 12, 7, 2, 14]
  ]

  const S5_ROWS: Table := [
    [2, 12, 4, 1, 7, 10, 11, 6, 8, 5, 3, 15, 13, 0, 14, 9],
    [14, 11, 2, 12, 4, 7, 13, 1, 5, 0, 15, 10, 3, 9, 8, 6],
    [4, 2, 1, 11, 10, 13, 7, 8, 15, 9, 12, 5, 6, 3, 0, 14],
    [11, 8, 12, 7, 1, 14, 2, 13, 6, 15, 0, 9, 10, 4, 5, 3]
  ]

  const S6_ROWS: Table := [
    [12, 1, 10, 15, 9, 2, 6, 8, 0, 13, 3, 4, 14, 7, 5, 11],
    [10, 15, 4, 2, 7, 12, 9, 5, 6, 1, 13, 14, 0, 11, 3, 8],
    [9, 14, 15, 5, 2, 8, 12, 3, 7, 0, 4, 10, 1, 13, 11, 6],
    [4, 3, 2, 12, 9, 5, 15, 10, 11, 14, 1, 7, 6, 0, 8, 13]
  ]

  const S7_ROWS: Table := [
    [4, 11, 2, 14, 15, 0, 8, 13, 3, 12, 9, 7, 5, 10, 6, 1],
    [13, 0, 11, 7, 4, 9, 1, 10, 14, 3, 5, 12, 2, 15, 8, 6],
    [1, 4, 11, 13, 12, 3, 7, 14, 10, 15, 6, 8, 0, 5, 9, 2],
    [6, 11, 13, 8, 1, 4, 10, 7, 9, 5, 0, 15, 14, 2, 3, 12]
  ]

  const S8_ROWS: Table := [
    [13, 2, 8, 4, 6, 15, 11, 1, 10, 9, 3, 14, 5, 0, 12, 7],
    [1, 15, 13, 8, 10, 3, 7, 4, 12, 5, 6, 11, 0, 14, 9, 2],
    [7, 11, 4, 1, 9, 12, 14, 2, 0, 6, 10, 13, 15, 3, 5, 8],
    [2, 1, 14, 7, 4, 10, 8, 13, 15, 12, 9, 0, 3, 5, 6, 11]
  ]

  /** The S-box value for six bits: the outer bits give the row, the inner ones the column. */
  function BoxValue(t: Table, i: nat): bv32
    requires i < 64
  {
    t[2 * (i / 32) + i % 2][(i / 2) % 16]
  }

  /** S-box 1, its four bits in their place in front of the permutation P. */
  function StdBox1(i: nat): bv32
    requires i < 64
  {
    BoxValue(S1_ROWS, i) << 28
  }

  /** S-box 2, its four bits in their place in front of the permutation P. */
  function StdBox2(i: nat): bv32
    requires i < 64
  {
    BoxValue(S2_ROWS, i) << 24
  }

  /** S-box 3, its four bits in their place in front of the permutation P. */
  function StdBox3(i: nat): bv32
    requires i < 64
  {
    BoxValue(S3_ROWS, i) << 20
  }

  /** S-box 4, its four bits in their place in front of the permutation P. */
  function StdBox4(i: nat): bv32
    requires i < 64
  {
    BoxValue(S4_ROWS, i) << 16
  }

  /** S-box 5, its four bits in their place in front of the permutation P. */
  function StdBox5(i: nat): bv32
    requires i < 64
  {
    BoxValue(S5_ROWS, i) << 12
  }

  /** S-box 6, its four bits in their place in front of the permutation P. */
  function StdBox6(i: nat): bv32
    requires i < 64
  {
    BoxValue(S6_ROWS, i) << 8
  }

  /** S-box 7, its four bits in their place in front of the permutation P. */
  function StdBox7(i: nat): bv32
    requires i < 64
  {
    BoxValue(S7_ROWS, i) << 4
  }

  /** S-box 8, its four bits in their place in front of the permutation P. */
  function StdBox8(i: nat): bv32
    requires i < 64
  {
    BoxValue(S8_ROWS, i)
  }

  // ---------- permutations ----------

  // An exchange selects the bits of either word by the mask.

  function Select4(s: Words): Words
  {
    Words((s.left & 0x0f0f0f0f) | ((s.right & 0x0f0f0f0f) << 4), (s.right & 0xf0f0f0f0) | ((s.left >> 4) & 0x0f0f0f0f))
  }

  lemma Exchange4IsSelect(s: Words)
    ensures Exchange4(s) == Select4(s)
  {
  }

  function Select16(s: Words): Words
  {
    Words((s.left & 0x0000ffff) | ((s.right & 0x0000ffff) << 16), (s.right & 0xffff0000) | ((s.left >> 16) & 0x0000ffff))
  }

  lemma Exchange16IsSelect(s: Words)
    ensures Exchange16(s) == Select16(s)
  {
  }

  function Select2(s: Words): Words
  {
    Words((s.left & 0x33333333) | ((s.right & 0x33333333) << 2), (s.right & 0xcccccccc) | ((s.left >> 2) & 0x33333333))
  }

  lemma Exchange2IsSelect(s: Words)
    ensures Exchange2(s) == Select2(s)
  {
  }

  function Select8(s: Words): Words
  {
    Words((s.left & 0x00ff00ff) | ((s.right & 0x00ff00ff) << 8), (s.right & 0xff00ff00) | ((s.left >> 8) & 0x00ff00ff))
  }

  lemma Exchange8IsSelect(s: Words)
    ensures Exchange8(s) == Select8(s)
  {
  }

  function SelectOdd(s: Words): Words
  {
    Words((s.left & 0x55555555) | (s.right & 0xaaaaaaaa), (s.right & 0x55555555) | (s.left & 0xaaaaaaaa))
  }

  lemma ExchangeOddIsSelect(s: Words)
    ensures ExchangeOdd(s) == SelectOdd(s)
  {
  }

  /** The initial permutation by selections. */
  function SelectInitial(s: Words): Words
  {
    var t := Select8(Select2(Swap(Select16(Select4(s)))));
    var e := SelectOdd(Words(t.right, RotateLeft(t.left)));
    Words(RotateLeft(e.left), e.right)
  }

  lemma InitialIsSelect(s: Words)
    ensures Initial(s) == SelectInitial(s)
  {
    hide Exchange4, Exchange16, Exchange2, Exchange8, ExchangeOdd, RotateLeft;
    hide Select4, Select16, Select2, Select8, SelectOdd;
    Exchange4IsSelect(s);
    var a := Select4(s);
    Exchange16IsSelect(a);
    var b := Swap(Select16(a));
    Exchange2IsSelect(b);
    var c := Select2(b);
    Exchange8IsSelect(c);
    var t := Select8(c);
    ExchangeOddIsSelect(Words(t.right, RotateLeft(t.left)));
  }

  lemma SelectIsStandardLeft(s: Words)
    ensures SelectInitial(s).left == RotateLeft(StdInitialLeft(s))
  {
  }

  lemma SelectIsStandardRight(s: Words)
    ensures SelectInitial(s).right == RotateLeft(StdInitialRight(s))
  {
  }

  lemma InitialIsStandard(s: Words)
    ensures Initial(s) == Words(RotateLeft(StdInitial(s).left), RotateLeft(StdInitial(s).right))
  {
    hide SelectInitial, StdInitialLeft, StdInitialRight, RotateLeft;
    InitialIsSelect(s);
    SelectIsStandardLeft(s);
    SelectIsStandardRight(s);
  }

  lemma StdFinalInverse(s: Words)
    ensures StdInitial(StdFinal(s)) == s
  {
  }

  lemma FinalIsStandard(s: Words)
    ensures Final(Words(RotateLeft(s.left), RotateLeft(s.right))) == StdFinal(s)
  {
    hide StdInitial, StdFinal, Initial, Final, RotateLeft;
    StdFinalInverse(s);
    InitialIsStandard(StdFinal(s));
    PermutationsInverse(StdFinal(s));
  }

  lemma Key2IsStandard(s: Words)
    ensures (EvenKey(s) >> 24) & 0x3f == StdKey2(s)
  {
  }

  lemma Expand2IsStandard(r: bv32)
    ensures (RotateLeft(r) >> 24) & 0x3f == StdExpand2(r)
  {
  }

  lemma Key4IsStandard(s: Words)
    ensures (EvenKey(s) >> 16) & 0x3f == StdKey4(s)
  {
  }

  lemma Expand4IsStandard(r: bv32)
    ensures (RotateLeft(r) >> 16) & 0x3f == StdExpand4(r)
  {
  }

  lemma Key6IsStandard(s: Words)
    ensures (EvenKey(s) >> 8) & 0x3f == StdKey6(s)
  {
  }

  lemma Expand6IsStandard(r: bv32)
    ensures (RotateLeft(r) >> 8) & 0x3f == StdExpand6(r)
  {
  }

  lemma Key8IsStandard(s: Words)
    ensures (EvenKey(s)) & 0x3f == StdKey8(s)
  {
  }

  lemma Expand8IsStandard(r: bv32)
    ensures (RotateLeft(r)) & 0x3f == StdExpand8(r)
  {
  }

  lemma Key1IsStandard(s: Words)
    ensures (OddKey(s) >> 24) & 0x3f == StdKey1(s)
  {
  }

  lemma Expand1IsStandard(r: bv32)
    ensures (((RotateLeft(r) << 28) | (RotateLeft(r) >> 4)) >> 24) & 0x3f == StdExpand1(r)
  {
  }

  lemma Key3IsStandard(s: Words)
    ensures (OddKey(s) >> 16) & 0x3f == StdKey3(s)
  {
  }

  lemma Expand3IsStandard(r: bv32)
    ensures (((RotateLeft(r) << 28) | (RotateLeft(r) >> 4)) >> 16) & 0x3f == StdExpand3(r)
  {
  }

  lemma Key5IsStandard(s: Words)
    ensures (OddKey(s) >> 8) & 0x3f == StdKey5(s)
  {
  }

  lemma Expand5IsStandard(r: bv32)
    ensures (((RotateLeft(r) << 28) | (RotateLeft(r) >> 4)) >> 8) & 0x3f == StdExpand5(r)
  {
  }

  lemma Key7IsStandard(s: Words)
    ensures (OddKey(s)) & 0x3f == StdKey7(s)
  {
  }

  lemma Expand7IsStandard(r: bv32)
    ensures (((RotateLeft(r) << 28) | (RotateLeft(r) >> 4))) & 0x3f == StdExpand7(r)
  {
  }

  // ---------- S-boxes ----------

  /** The entries of two rows of the source's table, in the columns 2c and 2c + 1, and those of
      two rows of the S-box, in the columns c and c + 8. */
  ghost predicate AgreeAt(t: Table, s: Table, spread: bv32 -> bv32, half: nat, c: nat)
    requires half < 2 && c < 8
  {
    var r := 2 * half;
    && t[r][2 * c] == spread(s[r][c]) && t[r][2 * c + 1] == spread(s[r + 1][c])
    && t[r + 1][2 * c] == spread(s[r][c + 8]) && t[r + 1][2 * c + 1] == spread(s[r + 1][c + 8])
    && s[r][c] <= 15 && s[r + 1][c] <= 15 && s[r][c + 8] <= 15 && s[r + 1][c + 8] <= 15
  }

  ghost predicate Agree(t: Table, s: Table, spread: bv32 -> bv32, half: nat)
    requires half < 2
  {
    forall c: nat :: c < 8 ==> AgreeAt(t, s, spread, half, c)
  }

  lemma Digits(i: nat)
    requires i < 64
    ensures var half, a, c, b := i / 32, i / 16 % 2, i % 16 / 2, i % 2;
      half < 2 && c < 8 && i / 16 == 2 * half + a && i % 16 == 2 * c + b && i / 2 % 16 == c + 8 * a
  {
  }

  lemma AgreeCell(t: Table, s: Table, spread: bv32 -> bv32, half: nat, a: nat, c: nat, b: nat)
    requires half < 2 && a < 2 && c < 8 && b < 2 && AgreeAt(t, s, spread, half, c)
    ensures t[2 * half + a][2 * c + b] == spread(s[2 * half + b][c + 8 * a]) && s[2 * half + b][c + 8 * a] <= 15
  {
    if a == 0 {
      if b == 0 {
      } else {
      }
    } else {
      if b == 0 {
      } else {
      }
    }
  }

  lemma AgreeEntry(t: Table, s: Table, spread: bv32 -> bv32, i: nat)
    requires Agree(t, s, spread, 0) && Agree(t, s, spread, 1) && i < 64
    ensures Entry(t, i) == spread(BoxValue(s, i)) && BoxValue(s, i) <= 15
  {
    hide AgreeAt, Entry, BoxValue;
    Digits(i);
    var half, a, c, b := i / 32, i / 16 % 2, i % 16 / 2, i % 2;
    EntryAt(t, i, 2 * half + a, 2 * c + b);
    ValueAt(s, i, 2 * half + b, c + 8 * a);
    assert Agree(t, s, spread, half);
    AgreeCell(t, s, spread, half, a, c, b);
  }

  lemma EntryAt(t: Table, i: nat, r: nat, c: nat)
    requires i < 64 && r == i / 16 && c == i % 16
    ensures Entry(t, i) == t[r][c]
  {
  }

  lemma ValueAt(t: Table, i: nat, r: nat, c: nat)
    requires i < 64 && r == 2 * (i / 32) + i % 2 && c == i / 2 % 16
    ensures BoxValue(t, i) == t[r][c]
  {
  }

  /** Where P and the rotation put the four bits of S-box 1. */
  function Spread1(v: bv32): bv32
  {
    (((v >> 3) & 1) << 24) | (((v >> 2) & 1) << 16) | (((v >> 1) & 1) << 10) | ((v & 1) << 2)
  }

  lemma Spread1IsP(v: bv32)
    requires v <= 15
    ensures Spread1(v) == RotateLeft(StdP(v << 28))
  {
  }

  lemma Box1Upper()
    ensures Agree(SBOX1, S1_ROWS, Spread1, 0)
  {
    forall c | 0 <= c < 8 ensures AgreeAt(SBOX1, S1_ROWS, Spread1, 0, c) {
      assert c in {0, 1, 2, 3, 4, 5, 6, 7};
    }
  }

  lemma Box1Lower()
    ensures Agree(SBOX1, S1_ROWS, Spread1, 1)
  {
    forall c | 0 <= c < 8 ensures AgreeAt(SBOX1, S1_ROWS, Spread1, 1, c) {
      assert c in {0, 1, 2, 3, 4, 5, 6, 7};
    }
  }

  lemma Box1IsStandard(x: bv32)
    ensures S1(x) == RotateLeft(StdP(StdBox1(Six(x)))) && StdBox1(Six(x)) & 0x0fffffff == 0
  {
    hide StdP, RotateLeft, Spread1, Agree;
    Box1Upper();
    Box1Lower();
    AgreeEntry(SBOX1, S1_ROWS, Spread1, Six(x));
    Spread1IsP(BoxValue(S1_ROWS, Six(x)));
    Box1Place(BoxValue(S1_ROWS, Six(x)));
  }

  lemma Box1Place(v: bv32)
    requires v <= 15
    ensures (v << 28) & 0x0fffffff == 0
  {
  }

  /** Where P and the rotation put the four bits of S-box 2. */
  function Spread2(v: bv32): bv32
  {
    (((v >> 3) & 1) << 20) | (((v >> 2) & 1) << 5) | (((v >> 1) & 1) << 31) | ((v & 1) << 15)
  }

  lemma Spread2IsP(v: bv32)
    requires v <= 15
    ensures Spread2(v) == RotateLeft(StdP(v << 24))
  {
  }

  lemma Box2Upper()
    ensures Agree(SBOX2, S2_ROWS, Spread2, 0)
  {
    forall c | 0 <= c < 8 ensures AgreeAt(SBOX2, S2_ROWS, Spread2, 0, c) {
      assert c in {0, 1, 2, 3, 4, 5, 6, 7};
    }
  }

  lemma Box2Lower()
    ensures Agree(SBOX2, S2_ROWS, Spread2, 1)
  {
    forall c | 0 <= c < 8 ensures AgreeAt(SBOX2, S2_ROWS, Spread2, 1, c) {
      assert c in {0, 1, 2, 3, 4, 5, 6, 7};
    }
  }

  lemma Box2IsStandard(x: bv32)
    ensures S2(x) == RotateLeft(StdP(StdBox2(Six(x)))) && StdBox2(Six(x)) & 0xf0ffffff == 0
  {
    hide StdP, RotateLeft, Spread2, Agree;
    Box2Upper();
    Box2Lower();
    AgreeEntry(SBOX2, S2_ROWS, Spread2, Six(x));
    Spread2IsP(BoxValue(S2_ROWS, Six(x)));
    Box2Place(BoxValue(S2_ROWS, Six(x)));
  }

  lemma Box2Place(v: bv32)
    requires v <= 15
    ensures (v << 24) & 0xf0ffffff == 0
  {
  }

  /** Where P and the rotation put the four bits of S-box 3. */
  function Spread3(v: bv32): bv32
  {
    (((v >> 3) & 1) << 9) | (((v >> 2) & 1) << 17) | (((v >> 1) & 1) << 3) | ((v & 1) << 27)
  }

  lemma Spread3IsP(v: bv32)
    requires v <= 15
    ensures Spread3(v) == RotateLeft(StdP(v << 20))
  {
  }

  lemma Box3Upper()
    ensures Agree(SBOX3, S3_ROWS, Spread3, 0)
  {
    forall c | 0 <= c < 8 ensures AgreeAt(SBOX3, S3_ROWS, Spread3, 0, c) {
      assert c in {0, 1, 2, 3, 4, 5, 6, 7};
    }
  }

  lemma Box3Lower()
    ensures Agree(SBOX3, S3_ROWS, Spread3, 1)
  {
    forall c | 0 <= c < 8 ensures AgreeAt(SBOX3, S3_ROWS, Spread3, 1, c) {
      assert c in {0, 1, 2, 3, 4, 5, 6, 7};
    }
  }

  lemma Box3IsStandard(x: bv32)
    ensures S3(x) == RotateLeft(StdP(StdBox3(Six(x)))) && StdBox3(Six(x)) & 0xff0fffff == 0
  {
    hide StdP, RotateLeft, Spread3, Agree;
    Box3Upper();
    Box3Lower();
    AgreeEntry(SBOX3, S3_ROWS, Spread3, Six(x));
    Spread3IsP(BoxValue(S3_ROWS, Six(x)));
    Box3Place(BoxValue(S3_ROWS, Six(x)));
  }

  lemma Box3Place(v: bv32)
    requires v <= 15
    ensures (v << 20) & 0xff0fffff == 0
  {
  }

  /** Where P and the rotation put the four bits of S-box 4. */
  function Spread4(v: bv32): bv32
  {
    (((v >> 3) & 1) << 7) | (((v >> 2) & 1) << 13) | (((v >> 1) & 1) << 23) | ((v & 1) << 0)
  }

  lemma Spread4IsP(v: bv32)
    requires v <= 15
    ensures Spread4(v) == RotateLeft(StdP(v << 16))
  {
  }

  lemma Box4Upper()
    ensures Agree(SBOX4, S4_ROWS, Spread4, 0)
  {
    forall c | 0 <= c < 8 ensures AgreeAt(SBOX4, S4_ROWS, Spread4, 0, c) {
      assert c in {0, 1, 2, 3, 4, 5, 6, 7};
    }
  }

  lemma Box4Lower()
    ensures Agree(SBOX4, S4_ROWS, Spread4, 1)
  {
    forall c | 0 <= c < 8 ensures AgreeAt(SBOX4, S4_ROWS, Spread4, 1, c) {
      assert c in {0, 1, 2, 3, 4, 5, 6, 7};
    }
  }

  lemma Box4IsStandard(x: bv32)
    ensures S4(x) == RotateLeft(StdP(StdBox4(Six(x)))) && StdBox4(Six(x)) & 0xfff0ffff == 0
  {
    hide StdP, RotateLeft, Spread4, Agree;
    Box4Upper();
    Box4Lower();
    AgreeEntry(SBOX4, S4_ROWS, Spread4, Six(x));
    Spread4IsP(BoxValue(S4_ROWS, Six(x)));
    Box4Place(BoxValue(S4_ROWS, Six(x)));
  }

  lemma Box4Place(v: bv32)
    requires v <= 15
    ensures (v << 16) & 0xfff0ffff == 0
  {
  }

  /** Where P and the rotation put the four bits of S-box 5. */
  function Spread5(v: bv32): bv32
  {
    (((v >> 3) & 1) << 25) | (((v >> 2) & 1) << 19) | (((v >> 1) & 1) << 8) | ((v & 1) << 30)
  }

  lemma Spread5IsP(v: bv32)
    requires v <= 15
    ensures Spread5(v) == RotateLeft(StdP(v << 12))
  {
  }

  lemma Box5Upper()
    ensures Agree(SBOX5, S5_ROWS, Spread5, 0)
  {
    forall c | 0 <= c < 8 ensures AgreeAt(SBOX5, S5_ROWS, Spread5, 0, c) {
      assert c in {0, 1, 2, 3, 4, 5, 6, 7};
    }
  }

  lemma Box5Lower()
    ensures Agree(SBOX5, S5_ROWS, Spread5, 1)
  {
    forall c | 0 <= c < 8 ensures AgreeAt(SBOX5, S5_ROWS, Spread5, 1, c) {
      assert c in {0, 1, 2, 3, 4, 5, 6, 7};
    }
  }

  lemma Box5IsStandard(x: bv32)
    ensures S5(x) == RotateLeft(StdP(StdBox5(Six(x)))) && StdBox5(Six(x)) & 0xffff0fff == 0
  {
    hide StdP, RotateLeft, Spread5, Agree;
    Box5Upper();
    Box5Lower();
    AgreeEntry(SBOX5, S5_ROWS, Spread5, Six(x));
    Spread5IsP(BoxValue(S5_ROWS, Six(x)));
    Box5Place(BoxValue(S5_ROWS, Six(x)));
  }

  lemma Box5Place(v: bv32)
    requires v <= 15
    ensures (v << 12) & 0xffff0fff == 0
  {
  }

  /** Where P and the rotation put the four bits of S-box 6. */
  function Spread6(v: bv32): bv32
  {
    (((v >> 3) & 1) << 29) | (((v >> 2) & 1) << 4) | (((v >> 1) & 1) << 22) | ((v & 1) << 14)
  }

  lemma Spread6IsP(v: bv32)
    requires v <= 15
    ensures Spread6(v) == RotateLeft(StdP(v << 8))
  {
  }

  lemma Box6Upper()
    ensures Agree(SBOX6, S6_ROWS, Spread6, 0)
  {
    forall c | 0 <= c < 8 ensures AgreeAt(SBOX6, S6_ROWS, Spread6, 0, c) {
      assert c in {0, 1, 2, 3, 4, 5, 6, 7};
    }
  }

  lemma Box6Lower()
    ensures Agree(SBOX6, S6_ROWS, Spread6, 1)
  {
    forall c | 0 <= c < 8 ensures AgreeAt(SBOX6, S6_ROWS, Spread6, 1, c) {
      assert c in {0, 1, 2, 3, 4, 5, 6, 7};
    }
  }

  lemma Box6IsStandard(x: bv32)
    ensures S6(x) == RotateLeft(StdP(StdBox6(Six(x)))) && StdBox6(Six(x)) & 0xfffff0ff == 0
  {
    hide StdP, RotateLeft, Spread6, Agree;
    Box6Upper();
    Box6Lower();
    AgreeEntry(SBOX6, S6_ROWS, Spread6, Six(x));
    Spread6IsP(BoxValue(S6_ROWS, Six(x)));
    Box6Place(BoxValue(S6_ROWS, Six(x)));
  }

  lemma Box6Place(v: bv32)
    requires v <= 15
    ensures (v << 8) & 0xfffff0ff == 0
  {
  }

  /** Where P and the rotation put the four bits of S-box 7. */
  function Spread7(v: bv32): bv32
  {
    (((v >> 3) & 1) << 1) | (((v >> 2) & 1) << 21) | (((v >> 1) & 1) << 11) | ((v & 1) << 26)
  }

  lemma Spread7IsP(v: bv32)
    requires v <= 15
    ensures Spread7(v) == RotateLeft(StdP(v << 4))
  {
  }

  lemma Box7Upper()
    ensures Agree(SBOX7, S7_ROWS, Spread7, 0)
  {
    forall c | 0 <= c < 8 ensures AgreeAt(SBOX7, S7_ROWS, Spread7, 0, c) {
      assert c in {0, 1, 2, 3, 4, 5, 6, 7};
    }
  }

  lemma Box7Lower()
    ensures Agree(SBOX7, S7_ROWS, Spread7, 1)
  {
    forall c | 0 <= c < 8 ensures AgreeAt(SBOX7, S7_ROWS, Spread7, 1, c) {
      assert c in {0, 1, 2, 3, 4, 5, 6, 7};
    }
  }

  lemma Box7IsStandard(x: bv32)
    ensures S7(x) == RotateLeft(StdP(StdBox7(Six(x)))) && StdBox7(Six(x)) & 0xffffff0f == 0
  {
    hide StdP, RotateLeft, Spread7, Agree;
    Box7Upper();
    Box7Lower();
    AgreeEntry(SBOX7, S7_ROWS, Spread7, Six(x));
    Spread7IsP(BoxValue(S7_ROWS, Six(x)));
    Box7Place(BoxValue(S7_ROWS, Six(x)));
  }

  lemma Box7Place(v: bv32)
    requires v <= 15
    ensures (v << 4) & 0xffffff0f == 0
  {
  }

  /** Where P and the rotation put the four bits of S-box 8. */
  function Spread8(v: bv32): bv32
  {
    (((v >> 3) & 1) << 28) | (((v >> 2) & 1) << 6) | (((v >> 1) & 1) << 18) | ((v & 1) << 12)
  }

  lemma Spread8IsP(v: bv32)
    requires v <= 15
    ensures Spread8(v) == RotateLeft(StdP(v))
  {
  }

  lemma Box8Upper()
    ensures Agree(SBOX8, S8_ROWS, Spread8, 0)
  {
    forall c | 0 <= c < 8 ensures AgreeAt(SBOX8, S8_ROWS, Spread8, 0, c) {
      assert c in {0, 1, 2, 3, 4, 5, 6, 7};
    }
  }

  lemma Box8Lower()
    ensures Agree(SBOX8, S8_ROWS, Spread8, 1)
  {
    forall c | 0 <= c < 8 ensures AgreeAt(SBOX8, S8_ROWS, Spread8, 1, c) {
      assert c in {0, 1, 2, 3, 4, 5, 6, 7};
    }
  }

  lemma Box8IsStandard(x: bv32)
    ensures S8(x) == RotateLeft(StdP(StdBox8(Six(x)))) && StdBox8(Six(x)) & 0xfffffff0 == 0
  {
    hide StdP, RotateLeft, Spread8, Agree;
    Box8Upper();
    Box8Lower();
    AgreeEntry(SBOX8, S8_ROWS, Spread8, Six(x));
    Spread8IsP(BoxValue(S8_ROWS, Six(x)));
    Box8Place(BoxValue(S8_ROWS, Six(x)));
  }

  lemma Box8Place(v: bv32)
    requires v <= 15
    ensures (v) & 0xfffffff0 == 0
  {
  }

  /** All eight combined tables. */
  lemma BoxesAreStandard(x: bv32)
    ensures S1(x) == RotateLeft(StdP(StdBox1(Six(x))))
    ensures S2(x) == RotateLeft(StdP(StdBox2(Six(x))))
    ensures S3(x) == RotateLeft(StdP(StdBox3(Six(x))))
    ensures S4(x) == RotateLeft(StdP(StdBox4(Six(x))))
    ensures S5(x) == RotateLeft(StdP(StdBox5(Six(x))))
    ensures S6(x) == RotateLeft(StdP(StdBox6(Six(x))))
    ensures S7(x) == RotateLeft(StdP(StdBox7(Six(x))))
    ensures S8(x) == RotateLeft(StdP(StdBox8(Six(x))))
  {
    hide S1, S2, S3, S4, S5, S6, S7, S8, StdP, RotateLeft, Six;
    hide StdBox1, StdBox2, StdBox3, StdBox4, StdBox5, StdBox6, StdBox7, StdBox8;
    Box1IsStandard(x);
    Box2IsStandard(x);
    Box3IsStandard(x);
    Box4IsStandard(x);
    Box5IsStandard(x);
    Box6IsStandard(x);
    Box7IsStandard(x);
    Box8IsStandard(x);
  }

  function SpreadLeft(b: bv4): bv32
  {
    ((b as bv32) & 1) | (((b as bv32) & 2) << 7) | (((b as bv32) & 4) << 14) | (((b as bv32) & 8) << 21)
  }

  lemma LeftIsSpread(b: bv4)
    ensures LEFTKEY_SWAP[b as nat] == SpreadLeft(b)
  {
    assert b in {0, 1, 2, 3, 4, 5, 6, 7, 8, 9, 10, 11, 12, 13, 14, 15};
  }

  function SpreadRight(b: bv4): bv32
  {
    (((b as bv32) & 1) << 24) | (((b as bv32) & 2) << 15) | (((b as bv32) & 4) << 6) | (((b as bv32) & 8) >> 3)
  }

  lemma RightIsSpread(b: bv4)
    ensures RIGHTKEY_SWAP[b as nat] == SpreadRight(b)
  {
    assert b in {0, 1, 2, 3, 4, 5, 6, 7, 8, 9, 10, 11, 12, 13, 14, 15};
  }

  /** Permuted choice 1 by selections. */
  function SelectKey(s: Words): Words
  {
    var t := Exchange0(Select4(Swap(s)));
    Words(SelectKeyLeft(t.right), SelectKeyRight(t.left))
  }

  function LeftAt(x: bv32): bv32 { SpreadLeft((x & 0xf) as bv4) }

  function RightAt(x: bv32): bv32 { SpreadRight((x & 0xf) as bv4) }

  function SelectKeyLeft(x: bv32): bv32
  {
    ((LeftAt(x) << 3) | (LeftAt(x >> 8) << 2) | (LeftAt(x >> 16) << 1) | LeftAt(x >> 24)
    | (LeftAt(x >> 5) << 7) | (LeftAt(x >> 13) << 6) | (LeftAt(x >> 21) << 5) | (LeftAt(x >> 29) << 4)) & 0x0fffffff
  }

  function SelectKeyRight(x: bv32): bv32
  {
    ((RightAt(x >> 1) << 3) | (RightAt(x >> 9) << 2) | (RightAt(x >> 17) << 1) | RightAt(x >> 25)
    | (RightAt(x >> 4) << 7) | (RightAt(x >> 12) << 6) | (RightAt(x >> 20) << 5) | (RightAt(x >> 28) << 4)) & 0x0fffffff
  }

  lemma LeftAtIs(x: bv32)
    ensures LEFTKEY_SWAP[Four(x)] == LeftAt(x)
  {
    hide SpreadLeft;
    LeftIsSpread((x & 0xf) as bv4);
  }

  lemma RightAtIs(x: bv32)
    ensures RIGHTKEY_SWAP[Four(x)] == RightAt(x)
  {
    hide SpreadRight;
    RightIsSpread((x & 0xf) as bv4);
  }

  lemma KeyLeftIsSelect(x: bv32)
    ensures KeyLeft(x) == SelectKeyLeft(x)
  {
    hide LeftAt, Four;
    LeftAtIs(x);
    LeftAtIs(x >> 8);
    LeftAtIs(x >> 16);
    LeftAtIs(x >> 24);
    LeftAtIs(x >> 5);
    LeftAtIs(x >> 13);
    LeftAtIs(x >> 21);
    LeftAtIs(x >> 29);
  }

  lemma KeyRightIsSelect(x: bv32)
    ensures KeyRight(x) == SelectKeyRight(x)
  {
    hide RightAt, Four;
    RightAtIs(x >> 1);
    RightAtIs(x >> 9);
    RightAtIs(x >> 17);
    RightAtIs(x >> 25);
    RightAtIs(x >> 4);
    RightAtIs(x >> 12);
    RightAtIs(x >> 20);
    RightAtIs(x >> 28);
  }

  lemma SelectKeyIsStandardLeft(s: Words)
    ensures SelectKey(s).left == StdKeyStartLeft(s)
  {
  }

  lemma SelectKeyIsStandardRight(s: Words)
    ensures SelectKey(s).right == StdKeyStartRight(s)
  {
  }

  lemma KeyStartIsStandard(key: Block)
    ensures KeyStart(key) == StdKeyStart(Read(key))
  {
    hide Read, Exchange4, Exchange0, Select4, KeyLeft, KeyRight, SelectKeyLeft, SelectKeyRight;
    hide StdKeyStartLeft, StdKeyStartRight;
    var s := Read(key);
    Exchange4IsSelect(Swap(s));
    var t := Exchange0(Select4(Swap(s)));
    KeyLeftIsSelect(t.right);
    KeyRightIsSelect(t.left);
    SelectKeyIsStandardLeft(s);
    SelectKeyIsStandardRight(s);
  }

  // ---------- DES ----------

  /** The halves C and D after the left shifts of the first `n` rounds. */
  ghost function StdKeyAt(key: Block, n: nat): Words
    requires n <= 16
  {
    if n == 0 then StdKeyStart(Read(key)) else KeyRotate(StdKeyAt(key, n - 1), n !in {1, 2, 9, 16})
  }

  /** The function f of a half block and the 48 bits that permuted choice 2 selects from C and D. */
  function StdF(r: bv32, k: Words): bv32
  {
    StdP(Or(StdOuter(r, k), StdInner(r, k)))
  }

  /** The halves L and R after `n` rounds. */
  ghost function StdRounds(b: Block, key: Block, n: nat): Words
    requires n <= 16
  {
    if n == 0 then StdInitial(Read(b))
    else var s := StdRounds(b, key, n - 1); Words(s.right, Xor(s.left, StdF(s.right, StdKeyAt(key, n))))
  }

  /** DES: sixteen rounds between the two permutations. */
  ghost function StdCrypt(b: Block, key: Block): Block
  {
    Write(StdFinal(Swap(StdRounds(b, key, 16))))
  }

  // ---------- the proof ----------

  // The word operations as functions, so that a proof can look away from their bits.

  function Or(x: bv32, y: bv32): bv32 { x | y }

  function Low6(x: bv32): bv32 { x & 0x3f }

  function Shift0(x: bv32): bv32 { x }

  function Shift8(x: bv32): bv32 { x >> 8 }

  function Shift16(x: bv32): bv32 { x >> 16 }

  function Shift24(x: bv32): bv32 { x >> 24 }

  /** The rotation between the two halves of a round. */
  function Turn(x: bv32): bv32 { (x << 28) | (x >> 4) }

  function OrFour(a: bv32, b: bv32, c: bv32, d: bv32): bv32
  {
    Or(Or(Or(a, b), c), d)
  }

  lemma Six0(x: bv32, y: bv32, e: bv32, k: bv32)
    requires Low6(Shift0(x)) == e && Low6(Shift0(y)) == k
    ensures Six(Shift0(Xor(x, y))) == Six(Xor(e, k))
  {
    assert (Shift0(Xor(x, y))) & 0x3f == Xor(e, k) & 0x3f;
  }

  lemma Six8(x: bv32, y: bv32, e: bv32, k: bv32)
    requires Low6(Shift8(x)) == e && Low6(Shift8(y)) == k
    ensures Six(Shift8(Xor(x, y))) == Six(Xor(e, k))
  {
    assert (Shift8(Xor(x, y))) & 0x3f == Xor(e, k) & 0x3f;
  }

  lemma Six16(x: bv32, y: bv32, e: bv32, k: bv32)
    requires Low6(Shift16(x)) == e && Low6(Shift16(y)) == k
    ensures Six(Shift16(Xor(x, y))) == Six(Xor(e, k))
  {
    assert (Shift16(Xor(x, y))) & 0x3f == Xor(e, k) & 0x3f;
  }

  lemma Six24(x: bv32, y: bv32, e: bv32, k: bv32)
    requires Low6(Shift24(x)) == e && Low6(Shift24(y)) == k
    ensures Six(Shift24(Xor(x, y))) == Six(Xor(e, k))
  {
    assert (Shift24(Xor(x, y))) & 0x3f == Xor(e, k) & 0x3f;
  }

  lemma JoinInner(a: bv32, b: bv32, c: bv32, d: bv32)
    requires a & 0xf0ffffff == 0 && b & 0xfff0ffff == 0 && c & 0xfffff0ff == 0 && d & 0xfffffff0 == 0
    ensures Xor(Xor(Xor(RotateLeft(StdP(d)), RotateLeft(StdP(c))), RotateLeft(StdP(b))), RotateLeft(StdP(a))) == RotateLeft(StdP(OrFour(a, b, c, d)))
    ensures OrFour(a, b, c, d) & 0xf0f0f0f0 == 0
  {
  }

  lemma EvenBoxesAre(work: bv32)
    ensures EvenBoxes(work) == Xor(Xor(Xor(S8(Shift0(work)), S6(Shift8(work))), S4(Shift16(work))), S2(Shift24(work)))
  {
    hide S1, S2, S3, S4, S5, S6, S7, S8;
  }

  lemma EvenInputIs(from: bv32, k: bv32)
    ensures EvenInput(from, k) == Xor(from, k)
  {
  }

  /** The six bits that the standard gives S-box 2. */
  function Input2(r: bv32, k: Words): nat
  {
    Six(Xor(StdExpand2(r), StdKey2(k)))
  }

  lemma Box2InRound(r: bv32, k: Words)
    ensures Input2(r, k) < 64
    ensures S2(Shift24(Xor(RotateLeft(r), EvenKey(k)))) == RotateLeft(StdP(StdBox2(Input2(r, k))))
    ensures StdBox2(Input2(r, k)) & 0xf0ffffff == 0
  {
    Expand2IsLow6(r);
    Key2IsLow6(k);
    hide EvenKey, StdP, RotateLeft, S2, StdBox2, StdExpand2, StdKey2, Xor, Shift24, Low6, Turn, Six;
    Six24(RotateLeft(r), EvenKey(k), StdExpand2(r), StdKey2(k));
    Box2IsStandard(Shift24(Xor(RotateLeft(r), EvenKey(k))));
  }

  lemma Expand2IsLow6(r: bv32)
    ensures Low6(Shift24(RotateLeft(r))) == StdExpand2(r)
  {
    Expand2IsStandard(r);
  }

  lemma Key2IsLow6(k: Words)
    ensures Low6(Shift24(EvenKey(k))) == StdKey2(k)
  {
    hide EvenKey, StdKey2;
    Key2IsStandard(k);
  }

  /** The six bits that the standard gives S-box 4. */
  function Input4(r: bv32, k: Words): nat
  {
    Six(Xor(StdExpand4(r), StdKey4(k)))
  }

  lemma Box4InRound(r: bv32, k: Words)
    ensures Input4(r, k) < 64
    ensures S4(Shift16(Xor(RotateLeft(r), EvenKey(k)))) == RotateLeft(StdP(StdBox4(Input4(r, k))))
    ensures StdBox4(Input4(r, k)) & 0xfff0ffff == 0
  {
    Expand4IsLow6(r);
    Key4IsLow6(k);
    hide EvenKey, StdP, RotateLeft, S4, StdBox4, StdExpand4, StdKey4, Xor, Shift16, Low6, Turn, Six;
    Six16(RotateLeft(r), EvenKey(k), StdExpand4(r), StdKey4(k));
    Box4IsStandard(Shift16(Xor(RotateLeft(r), EvenKey(k))));
  }

  lemma Expand4IsLow6(r: bv32)
    ensures Low6(Shift16(RotateLeft(r))) == StdExpand4(r)
  {
    Expand4IsStandard(r);
  }

  lemma Key4IsLow6(k: Words)
    ensures Low6(Shift16(EvenKey(k))) == StdKey4(k)
  {
    hide EvenKey, StdKey4;
    Key4IsStandard(k);
  }

  /** The six bits that the standard gives S-box 6. */
  function Input6(r: bv32, k: Words): nat
  {
    Six(Xor(StdExpand6(r), StdKey6(k)))
  }

  lemma Box6InRound(r: bv32, k: Words)
    ensures Input6(r, k) < 64
    ensures S6(Shift8(Xor(RotateLeft(r), EvenKey(k)))) == RotateLeft(StdP(StdBox6(Input6(r, k))))
    ensures StdBox6(Input6(r, k)) & 0xfffff0ff == 0
  {
    Expand6IsLow6(r);
    Key6IsLow6(k);
    hide EvenKey, StdP, RotateLeft, S6, StdBox6, StdExpand6, StdKey6, Xor, Shift8, Low6, Turn, Six;
    Six8(RotateLeft(r), EvenKey(k), StdExpand6(r), StdKey6(k));
    Box6IsStandard(Shift8(Xor(RotateLeft(r), EvenKey(k))));
  }

  lemma Expand6IsLow6(r: bv32)
    ensures Low6(Shift8(RotateLeft(r))) == StdExpand6(r)
  {
    Expand6IsStandard(r);
  }

  lemma Key6IsLow6(k: Words)
    ensures Low6(Shift8(EvenKey(k))) == StdKey6(k)
  {
    hide EvenKey, StdKey6;
    Key6IsStandard(k);
  }

  /** The six bits that the standard gives S-box 8. */
  function Input8(r: bv32, k: Words): nat
  {
    Six(Xor(StdExpand8(r), StdKey8(k)))
  }

  lemma Box8InRound(r: bv32, k: Words)
    ensures Input8(r, k) < 64
    ensures S8(Shift0(Xor(RotateLeft(r), EvenKey(k)))) == RotateLeft(StdP(StdBox8(Input8(r, k))))
    ensures StdBox8(Input8(r, k)) & 0xfffffff0 == 0
  {
    Expand8IsLow6(r);
    Key8IsLow6(k);
    hide EvenKey, StdP, RotateLeft, S8, StdBox8, StdExpand8, StdKey8, Xor, Shift0, Low6, Turn, Six;
    Six0(RotateLeft(r), EvenKey(k), StdExpand8(r), StdKey8(k));
    Box8IsStandard(Shift0(Xor(RotateLeft(r), EvenKey(k))));
  }

  lemma Expand8IsLow6(r: bv32)
    ensures Low6(Shift0(RotateLeft(r))) == StdExpand8(r)
  {
    Expand8IsStandard(r);
  }

  lemma Key8IsLow6(k: Words)
    ensures Low6(Shift0(EvenKey(k))) == StdKey8(k)
  {
    hide EvenKey, StdKey8;
    Key8IsStandard(k);
  }

  function StdInner(r: bv32, k: Words): bv32
  {
    OrFour(StdBox2(Input2(r, k)), StdBox4(Input4(r, k)), StdBox6(Input6(r, k)), StdBox8(Input8(r, k)))
  }

  lemma EvenIsStandard(r: bv32, k: Words)
    ensures EvenBoxes(EvenInput(RotateLeft(r), EvenKey(k))) == RotateLeft(StdP(StdInner(r, k)))
    ensures StdInner(r, k) & 0xf0f0f0f0 == 0
  {
    hide OrFour, Xor, EvenBoxes, EvenInput, Turn, Shift0, Shift8, Shift16, Shift24, StdP, RotateLeft, EvenKey;
    hide S2, StdBox2, Input2, S4, StdBox4, Input4, S6, StdBox6, Input6, S8, StdBox8, Input8;
    EvenInputIs(RotateLeft(r), EvenKey(k));
    EvenBoxesAre(EvenInput(RotateLeft(r), EvenKey(k)));
    Box2InRound(r, k);
    Box4InRound(r, k);
    Box6InRound(r, k);
    Box8InRound(r, k);
    JoinInner(StdBox2(Input2(r, k)), StdBox4(Input4(r, k)), StdBox6(Input6(r, k)), StdBox8(Input8(r, k)));
  }

  lemma JoinOuter(a: bv32, b: bv32, c: bv32, d: bv32)
    requires a & 0x0fffffff == 0 && b & 0xff0fffff == 0 && c & 0xffff0fff == 0 && d & 0xffffff0f == 0
    ensures Xor(Xor(Xor(RotateLeft(StdP(d)), RotateLeft(StdP(c))), RotateLeft(StdP(b))), RotateLeft(StdP(a))) == RotateLeft(StdP(OrFour(a, b, c, d)))
    ensures OrFour(a, b, c, d) & 0x0f0f0f0f == 0
  {
  }

  lemma OddBoxesAre(work: bv32)
    ensures OddBoxes(work) == Xor(Xor(Xor(S7(Shift0(work)), S5(Shift8(work))), S3(Shift16(work))), S1(Shift24(work)))
  {
    hide S1, S2, S3, S4, S5, S6, S7, S8;
  }

  lemma OddInputIs(from: bv32, k: bv32)
    ensures OddInput(from, k) == Xor(Turn(from), k)
  {
  }

  /** The six bits that the standard gives S-box 1. */
  function Input1(r: bv32, k: Words): nat
  {
    Six(Xor(StdExpand1(r), StdKey1(k)))
  }

  lemma Box1InRound(r: bv32, k: Words)
    ensures Input1(r, k) < 64
    ensures S1(Shift24(Xor(Turn(RotateLeft(r)), OddKey(k)))) == RotateLeft(StdP(StdBox1(Input1(r, k))))
    ensures StdBox1(Input1(r, k)) & 0x0fffffff == 0
  {
    Expand1IsLow6(r);
    Key1IsLow6(k);
    hide OddKey, StdP, RotateLeft, S1, StdBox1, StdExpand1, StdKey1, Xor, Shift24, Low6, Turn, Six;
    Six24(Turn(RotateLeft(r)), OddKey(k), StdExpand1(r), StdKey1(k));
    Box1IsStandard(Shift24(Xor(Turn(RotateLeft(r)), OddKey(k))));
  }

  lemma Expand1IsLow6(r: bv32)
    ensures Low6(Shift24(Turn(RotateLeft(r)))) == StdExpand1(r)
  {
    Expand1IsStandard(r);
  }

  lemma Key1IsLow6(k: Words)
    ensures Low6(Shift24(OddKey(k))) == StdKey1(k)
  {
    hide OddKey, StdKey1;
    Key1IsStandard(k);
  }

  /** The six bits that the standard gives S-box 3. */
  function Input3(r: bv32, k: Words): nat
  {
    Six(Xor(StdExpand3(r), StdKey3(k)))
  }

  lemma Box3InRound(r: bv32, k: Words)
    ensures Input3(r, k) < 64
    ensures S3(Shift16(Xor(Turn(RotateLeft(r)), OddKey(k)))) == RotateLeft(StdP(StdBox3(Input3(r, k))))
    ensures StdBox3(Input3(r, k)) & 0xff0fffff == 0
  {
    Expand3IsLow6(r);
    Key3IsLow6(k);
    hide OddKey, StdP, RotateLeft, S3, StdBox3, StdExpand3, StdKey3, Xor, Shift16, Low6, Turn, Six;
    Six16(Turn(RotateLeft(r)), OddKey(k), StdExpand3(r), StdKey3(k));
    Box3IsStandard(Shift16(Xor(Turn(RotateLeft(r)), OddKey(k))));
  }

  lemma Expand3IsLow6(r: bv32)
    ensures Low6(Shift16(Turn(RotateLeft(r)))) == StdExpand3(r)
  {
    Expand3IsStandard(r);
  }

  lemma Key3IsLow6(k: Words)
    ensures Low6(Shift16(OddKey(k))) == StdKey3(k)
  {
    hide OddKey, StdKey3;
    Key3IsStandard(k);
  }

  /** The six bits that the standard gives S-box 5. */
  function Input5(r: bv32, k: Words): nat
  {
    Six(Xor(StdExpand5(r), StdKey5(k)))
  }

  lemma Box5InRound(r: bv32, k: Words)
    ensures Input5(r, k) < 64
    ensures S5(Shift8(Xor(Turn(RotateLeft(r)), OddKey(k)))) == RotateLeft(StdP(StdBox5(Input5(r, k))))
    ensures StdBox5(Input5(r, k)) & 0xffff0fff == 0
  {
    Expand5IsLow6(r);
    Key5IsLow6(k);
    hide OddKey, StdP, RotateLeft, S5, StdBox5, StdExpand5, StdKey5, Xor, Shift8, Low6, Turn, Six;
    Six8(Turn(RotateLeft(r)), OddKey(k), StdExpand5(r), StdKey5(k));
    Box5IsStandard(Shift8(Xor(Turn(RotateLeft(r)), OddKey(k))));
  }

  lemma Expand5IsLow6(r: bv32)
    ensures Low6(Shift8(Turn(RotateLeft(r)))) == StdExpand5(r)
  {
    Expand5IsStandard(r);
  }

  lemma Key5IsLow6(k: Words)
    ensures Low6(Shift8(OddKey(k))) == StdKey5(k)
  {
    hide OddKey, StdKey5;
    Key5IsStandard(k);
  }

  /** The six bits that the standard gives S-box 7. */
  function Input7(r: bv32, k: Words): nat
  {
    Six(Xor(StdExpand7(r), StdKey7(k)))
  }

  lemma Box7InRound(r: bv32, k: Words)
    ensures Input7(r, k) < 64
    ensures S7(Shift0(Xor(Turn(RotateLeft(r)), OddKey(k)))) == RotateLeft(StdP(StdBox7(Input7(r, k))))
    ensures StdBox7(Input7(r, k)) & 0xffffff0f == 0
  {
    Expand7IsLow6(r);
    Key7IsLow6(k);
    hide OddKey, StdP, RotateLeft, S7, StdBox7, StdExpand7, StdKey7, Xor, Shift0, Low6, Turn, Six;
    Six0(Turn(RotateLeft(r)), OddKey(k), StdExpand7(r), StdKey7(k));
    Box7IsStandard(Shift0(Xor(Turn(RotateLeft(r)), OddKey(k))));
  }

  lemma Expand7IsLow6(r: bv32)
    ensures Low6(Shift0(Turn(RotateLeft(r)))) == StdExpand7(r)
  {
    Expand7IsStandard(r);
  }

  lemma Key7IsLow6(k: Words)
    ensures Low6(Shift0(OddKey(k))) == StdKey7(k)
  {
    hide OddKey, StdKey7;
    Key7IsStandard(k);
  }

  function StdOuter(r: bv32, k: Words): bv32
  {
    OrFour(StdBox1(Input1(r, k)), StdBox3(Input3(r, k)), StdBox5(Input5(r, k)), StdBox7(Input7(r, k)))
  }

  lemma OddIsStandard(r: bv32, k: Words)
    ensures OddBoxes(OddInput(RotateLeft(r), OddKey(k))) == RotateLeft(StdP(StdOuter(r, k)))
    ensures StdOuter(r, k) & 0x0f0f0f0f == 0
  {
    hide OrFour, Xor, OddBoxes, OddInput, Turn, Shift0, Shift8, Shift16, Shift24, StdP, RotateLeft, OddKey;
    hide S1, StdBox1, Input1, S3, StdBox3, Input3, S5, StdBox5, Input5, S7, StdBox7, Input7;
    OddInputIs(RotateLeft(r), OddKey(k));
    OddBoxesAre(OddInput(RotateLeft(r), OddKey(k)));
    Box1InRound(r, k);
    Box3InRound(r, k);
    Box5InRound(r, k);
    Box7InRound(r, k);
    JoinOuter(StdBox1(Input1(r, k)), StdBox3(Input3(r, k)), StdBox5(Input5(r, k)), StdBox7(Input7(r, k)));
  }

  lemma JoinBoth(outer: bv32, inner: bv32)
    requires outer & 0x0f0f0f0f == 0 && inner & 0xf0f0f0f0 == 0
    ensures StdP(Or(outer, inner)) == Xor(StdP(inner), StdP(outer))
  {
  }

  lemma RotateXor(l: bv32, a: bv32, b: bv32)
    ensures Xor(Xor(RotateLeft(l), RotateLeft(a)), RotateLeft(b)) == RotateLeft(Xor(l, Xor(a, b)))
  {
    hide Xor, RotateLeft;
    RotateTwo(l, a);
    RotateTwo(Xor(l, a), b);
    XorAssociates(l, a, b);
  }

  lemma RotateTwo(a: bv32, b: bv32)
    ensures Xor(RotateLeft(a), RotateLeft(b)) == RotateLeft(Xor(a, b))
  {
  }

  lemma XorAssociates(a: bv32, b: bv32, c: bv32)
    ensures Xor(Xor(a, b), c) == Xor(a, Xor(b, c))
  {
  }

  /** A round on rotated words is a round of the standard. */
  lemma MixIsStandard(l: bv32, r: bv32, k: Words)
    ensures Mix(RotateLeft(l), RotateLeft(r), EvenKey(k), OddKey(k)) == RotateLeft(Xor(l, StdF(r, k)))
  {
    hide Xor, Or, EvenBoxes, OddBoxes, EvenInput, OddInput, EvenKey, OddKey, StdP, StdInner, StdOuter, RotateLeft;
    EvenIsStandard(r, k);
    OddIsStandard(r, k);
    JoinBoth(StdOuter(r, k), StdInner(r, k));
    RotateXor(l, StdP(StdInner(r, k)), StdP(StdOuter(r, k)));
  }

  lemma {:induction false} KeysAreStandard(key: Block, n: nat)
    requires n <= 16
    ensures KeyAt(key, n) == StdKeyAt(key, n)
  {
    hide KeyStart, KeyRotate, StdKeyStart, Read;
    if n == 0 {
      KeyStartIsStandard(key);
    } else {
      KeysAreStandard(key, n - 1);
      ShiftTable(n - 1);
    }
  }

  lemma ShiftTable(i: nat)
    requires i < 16
    ensures RotatesTwice(i) <==> i + 1 !in {1, 2, 9, 16}
  {
    assert i in {0, 1, 2, 3, 4, 5, 6, 7, 8, 9, 10, 11, 12, 13, 14, 15};
  }

  function Rotated(s: Words): Words
  {
    Words(RotateLeft(s.left), RotateLeft(s.right))
  }

  lemma {:induction false} RoundsAreStandard(b: Block, key: Block, n: nat)
    requires n <= 16
    ensures Rounds(MixKey, Initial(Read(b)), Pairs(Schedule(key))[..n]) == Rotated(StdRounds(b, key, n))
  {
    hide Initial, Read, StdInitial, Rounds, Pairs, Schedule, Mix, StdF, RotateLeft, EvenKey, OddKey, KeyAt, StdKeyAt, Xor;
    var ps := Pairs(Schedule(key));
    if n == 0 {
      RoundsStart(MixKey, Initial(Read(b)));
      InitialIsStandard(Read(b));
      assert ps[..0] == [];
    } else {
      RoundsAreStandard(b, key, n - 1);
      RoundsStep(MixKey, Initial(Read(b)), ps, n - 1);
      PairsAt(Schedule(key), n - 1);
      ScheduleAt(key, n - 1);
      KeysAreStandard(key, n);
      var s := StdRounds(b, key, n - 1);
      MixIsStandard(s.left, s.right, StdKeyAt(key, n));
    }
  }

  /** gl_des_setkey and gl_des_ecb_crypt compute DES as the standard defines it. */
  lemma DesIsStandard(b: Block, key: Block)
    ensures Crypt(b, Schedule(key)) == StdCrypt(b, key)
  {
    hide Initial, Final, Read, Write, Rounds, Pairs, Schedule, StdFinal, RotateLeft, StdRounds;
    var ps := Pairs(Schedule(key));
    RoundsAreStandard(b, key, 16);
    assert ps[..16] == ps;
    FinalIsStandard(Swap(StdRounds(b, key, 16)));
  }

}
