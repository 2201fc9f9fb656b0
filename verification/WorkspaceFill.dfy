/** The deterministic A/B fill with its streaming mix: one element at a time on
    Python integers, and vectorised on wrapping 64-bit words. */
module WorkspaceFill {
  import opened Arithmetic
  import opened Bits
  import opened ByteStrings

  const TWO64: nat := 0x1_0000_0000_0000_0000

  const PASS_MIX: nat := 0xD1B54A32D192ED03
  const ROUND_MIX: nat := 0xABC98388FB8FAC03
  const A_MIX: nat := 0x8CB92BA72F3D8DD7
  const B_MIX: nat := 0x195D7C4F8E2D2D13
  const MIX_ROUND_MIX: nat := 0x9E3779B97F4A7C15
  const MIX_A_OFFSET: nat := 0xA5A5A5A5A5A5A5A5
  const MIX_B_OFFSET: nat := 0x5A5A5A5A5A5A5A5A
  const SPLIT_ADD: nat := 0x9E3779B97F4A7C15
  const SPLIT_MUL_1: nat := 0xBF58476D1CE4E5B9
  const SPLIT_MUL_2: nat := 0x94D049BB133111EB

  /** `value & _MASK64` */
  function Mask64(x: int): (m: nat)
    ensures m < TWO64
  {
    x % TWO64
  }

  lemma WordXor(a: nat, b: nat)
    requires a < TWO64 && b < TWO64
    ensures Xor(a, b) < TWO64
  {
    Pow2Word();
    XorBound(a, b, 64);
  }

  // ---------------------------------------------------------- scalar, on ints

  /** `_splitmix64` */
  function SplitMix(x: int): (m: nat)
    ensures m < TWO64
  {
    var x1 := Mask64(x + SPLIT_ADD);
    var x2 := Mask64(Xor(x1, ShiftRight(x1, 30)) * SPLIT_MUL_1);
    var x3 := Mask64(Xor(x2, ShiftRight(x2, 27)) * SPLIT_MUL_2);
    Mask64(Xor(x3, ShiftRight(x3, 31)))
  }

  function ShiftRight(x: nat, places: nat): (y: nat)
    ensures y <= x
  {
    if places == 0 then x else ShiftRight(x / 2, places - 1)
  }

  lemma {:induction false} ShiftBits(x: nat, places: nat, i: nat)
    ensures Bit(ShiftRight(x, places), i) == Bit(x, i + places)
    decreases places
  {
    if places > 0 {
      ShiftBits(x / 2, places - 1, i);
      BitOfHalf(x, i + places - 1);
    }
  }

  /** A word and its own higher bits, moved down, added without carries. */
  ghost predicate Folds(u: nat, a: nat, places: nat) {
    forall i: nat :: Bit(u, i) <==> Bit(a, i) != Bit(a, i + places)
  }

  lemma FoldsWord(a: nat, places: nat)
    requires a < TWO64
    ensures Folds(Xor(a, ShiftRight(a, places)), a, places) && Xor(a, ShiftRight(a, places)) < TWO64
  {
    hide Xor, Bit;
    WordXor(a, ShiftRight(a, places));
    hide ShiftRight;
    forall i: nat
      ensures Bit(Xor(a, ShiftRight(a, places)), i) <==> Bit(a, i) != Bit(a, i + places)
    {
      XorBits(a, ShiftRight(a, places), i);
      ShiftBits(a, places, i);
    }
  }

  /** The mixer, step by step: add, fold by 30, multiply, fold by 27, multiply, fold
      by 31, all on 64 bits. */
  lemma SplitMixExactly(x: int) returns (a: nat, u: nat, b: nat, v: nat, c: nat)
    ensures a == (x + 0x9E3779B97F4A7C15) % 0x1_0000_0000_0000_0000 && Folds(u, a, 30)
    ensures b == u * 0xBF58476D1CE4E5B9 % 0x1_0000_0000_0000_0000 && Folds(v, b, 27)
    ensures c == v * 0x94D049BB133111EB % 0x1_0000_0000_0000_0000 && Folds(SplitMix(x), c, 31)
  {
    hide Xor, ShiftRight, Folds;
    a := Mask64(x + SPLIT_ADD);
    FoldsWord(a, 30);
    u := Xor(a, ShiftRight(a, 30));
    b := Mask64(u * SPLIT_MUL_1);
    FoldsWord(b, 27);
    v := Xor(b, ShiftRight(b, 27));
    c := Mask64(v * SPLIT_MUL_2);
    FoldsWord(c, 31);
    assert SplitMix(x) == Mask64(Xor(c, ShiftRight(c, 31)));
  }

  /** The key of a fill: workspace seed, pass and round. */
  datatype Key = Key(seed: int, passIndex: int, roundIndex: int)

  function KeyBasis(key: Key): nat {
    Xor(Xor(Mask64(key.seed), Mask64(key.passIndex * PASS_MIX)), Mask64(key.roundIndex * ROUND_MIX))
  }

  /** `workspace_i8_value` at a linear index. */
  function FillValue(key: Key, matrixId: int, idx: int): (v: int)
    ensures -128 <= v <= 127
  {
    var x := Xor(KeyBasis(key), Mask64(idx));
    var mix := if matrixId == 0 then A_MIX else B_MIX;
    SplitMix(Xor(x, mix)) % 256 - 128
  }

  /** Exclusive or of bytes. */
  function ByteXor(a: byte, b: byte): (r: byte)
    ensures r == Xor(a, b)
  {
    Pow2Bytes();
    XorBound(a, b, 8);
    Xor(a, b)
  }

  /** The A (matrix 0) or B byte mask of one mix round. */
  function MixMask(key: Key, matrixId: int, idx: int, mixIndex: nat): byte {
    var basis := Xor(KeyBasis(key), Mask64(mixIndex * MIX_ROUND_MIX));
    (if matrixId == 0 then SplitMix(Xor(Xor(basis, Mask64(2 * idx)), MIX_A_OFFSET))
     else SplitMix(Xor(Xor(basis, Mask64(4 * idx)), MIX_B_OFFSET))) % 256
  }

  /** The two's complement byte after k mix rounds. */
  function MixedByte(key: Key, matrixId: int, idx: int, k: nat): byte {
    if k == 0 then U8(FillValue(key, matrixId, idx))
    else ByteXor(MixedByte(key, matrixId, idx, k - 1), MixMask(key, matrixId, idx, k - 1))
  }

  /** What every word of a fill is mixed from, modulo 2^64. */
  function KeyTerms(key: Key): seq<nat> {
    [key.seed % 0x1_0000_0000_0000_0000,
     key.passIndex * 0xD1B54A32D192ED03 % 0x1_0000_0000_0000_0000,
     key.roundIndex * 0xABC98388FB8FAC03 % 0x1_0000_0000_0000_0000]
  }

  lemma KeyParity(key: Key)
    ensures Parity(KeyBasis(key), KeyTerms(key)) && KeyBasis(key) < TWO64
  {
    hide Xor;
    var t := KeyTerms(key);
    WordXor(t[0], t[1]);
    WordXor(Xor(t[0], t[1]), t[2]);
    ParityOfOne(t[0]);
    ParityGrows(t[0], [t[0]], t[1]);
    assert [t[0]] + [t[1]] == [t[0], t[1]];
    ParityGrows(Xor(t[0], t[1]), [t[0], t[1]], t[2]);
    assert [t[0], t[1]] + [t[2]] == t;
  }

  lemma ParityOfTwoMore(w: nat, terms: seq<nat>, a: nat, b: nat)
    requires Parity(w, terms)
    ensures Parity(Xor(Xor(w, a), b), terms + [a, b])
  {
    hide Xor, Parity;
    ParityGrows(w, terms, a);
    ParityGrows(Xor(w, a), terms + [a], b);
    assert terms + [a] + [b] == terms + [a, b];
  }

  /** A fill value is the last byte of the hashed word less 128. The word is the sum
      without carries of the key, the index and the constant of the matrix. */
  lemma FillDrawn(key: Key, matrixId: int, idx: int) returns (w: nat)
    ensures Parity(w, KeyTerms(key) + [idx % 0x1_0000_0000_0000_0000,
                                       if matrixId == 0 then 0x8CB92BA72F3D8DD7 else 0x195D7C4F8E2D2D13])
    ensures FillValue(key, matrixId, idx) == SplitMix(w) % 256 - 128
  {
    hide Xor, Parity, SplitMix, KeyBasis;
    var mix := if matrixId == 0 then A_MIX else B_MIX;
    w := Xor(Xor(KeyBasis(key), Mask64(idx)), mix);
    KeyParity(key);
    ParityOfTwoMore(KeyBasis(key), KeyTerms(key), Mask64(idx), mix);
  }

  /** The word of a mask adds the mix index to the key, and twice or four times the
      index. */
  lemma MaskDrawn(key: Key, matrixId: int, idx: int, mixIndex: nat) returns (w: nat)
    ensures Parity(w, KeyTerms(key) + [mixIndex * 0x9E3779B97F4A7C15 % 0x1_0000_0000_0000_0000] +
                      [(if matrixId == 0 then 2 * idx else 4 * idx) % 0x1_0000_0000_0000_0000,
                       if matrixId == 0 then 0xA5A5A5A5A5A5A5A5 else 0x5A5A5A5A5A5A5A5A])
    ensures MixMask(key, matrixId, idx, mixIndex) == SplitMix(w) % 256
  {
    hide Xor, Parity, SplitMix, KeyBasis;
    var step, own := Mask64(mixIndex * MIX_ROUND_MIX), Mask64(if matrixId == 0 then 2 * idx else 4 * idx);
    var offset := if matrixId == 0 then MIX_A_OFFSET else MIX_B_OFFSET;
    var basis := Xor(KeyBasis(key), step);
    w := Xor(Xor(basis, own), offset);
    KeyParity(key);
    ParityGrows(KeyBasis(key), KeyTerms(key), step);
    ParityOfTwoMore(basis, KeyTerms(key) + [step], own, offset);
  }

  datatype FillResult = Values(v: seq<int>) | UnsupportedRounds | UnsupportedMatrix | DivisionByZero

  /** `workspace_i8_value_after_mix` at a linear index. */
  function ScalarAfterMix(key: Key, matrixId: int, idx: int, rounds: int): FillResult {
    if rounds == 0 then Values([FillValue(key, matrixId, idx)])
    else if rounds < 0 then UnsupportedRounds
    else Values([I8(MixedByte(key, if matrixId == 0 then 0 else 1, idx, rounds))])
  }

  /** `//` and `%`, which round down and follow the sign of the divisor. */
  function FloorDiv(a: int, b: int): int
    requires b != 0
  {
    if b > 0 then a / b else (-a) / (-b)
  }

  function FloorMod(a: int, b: int): int
    requires b != 0
  {
    if b > 0 then a % b else -((-a) % (-b))
  }

  /** The linear index of the row and column recomputed from a linear index. */
  function Relinear(idx: int, dim: int): (i: int)
    requires dim != 0
    ensures i == idx
  {
    FloorDiv(idx, dim) * dim + FloorMod(idx, dim)
  }

  /** The scalar form with its loop; with rounds to run it divides by the
      dimension. */
  method ValueAfterMix(key: Key, matrixId: int, row: int, col: int, dim: int, rounds: int) returns (r: FillResult)
    ensures rounds > 0 && dim == 0 ==> r == DivisionByZero
    ensures rounds <= 0 || dim != 0 ==> r == ScalarAfterMix(key, matrixId, row * dim + col, rounds)
  {
    hide FillValue, MixMask, Xor;
    if rounds == 0 {
      return Values([FillValue(key, matrixId, row * dim + col)]);
    }
    if rounds < 0 {
      return UnsupportedRounds;
    }
    if dim == 0 {
      return DivisionByZero;
    }
    var idx := row * dim + col;
    var ai := U8(FillValue(key, 0, Relinear(idx, dim)));
    var bi := U8(FillValue(key, 1, Relinear(idx, dim)));
    for mixIndex := 0 to rounds
      invariant ai == MixedByte(key, 0, idx, mixIndex)
      invariant bi == MixedByte(key, 1, idx, mixIndex)
    {
      ai := ByteXor(ai, MixMask(key, 0, idx, mixIndex));
      bi := ByteXor(bi, MixMask(key, 1, idx, mixIndex));
    }
    r := Values([I8(if matrixId == 0 then ai else bi)]);
  }

  // -------------------------------------------------- vectorised, on words

  /** A `numpy` 64-bit word; its operations wrap. */
  type Word = w: int | 0 <= w < TWO64 witness 0

  function WordAdd(a: Word, b: Word): Word {
    if a + b < TWO64 then a + b else a + b - TWO64
  }

  function WordMul(a: Word, b: Word): Word {
    Mask64(a * b)
  }

  function WordXorOf(a: Word, b: Word): Word {
    WordXor(a, b);
    Xor(a, b)
  }

  function WordShiftRight(a: Word, places: nat): Word {
    ShiftRight(a, places)
  }

  /** A left shift by one or two places drops the high bits. */
  function WordShiftLeft(a: Word, places: nat): Word
    requires 1 <= places <= 2
  {
    var doubled: Word := if a < TWO64 / 2 then 2 * a else 2 * a - TWO64;
    if places == 1 then doubled
    else if doubled < TWO64 / 2 then 2 * doubled else 2 * doubled - TWO64
  }

  function WordSplitMix(v: Word): Word {
    var v1 := WordAdd(v, SPLIT_ADD);
    var v2 := WordMul(WordXorOf(v1, WordShiftRight(v1, 30)), SPLIT_MUL_1);
    var v3 := WordMul(WordXorOf(v2, WordShiftRight(v2, 27)), SPLIT_MUL_2);
    WordXorOf(v3, WordShiftRight(v3, 31))
  }

  lemma WordAddIsMaskedAdd(a: Word, b: Word)
    ensures WordAdd(a, b) == Mask64(a + b)
  {
  }

  lemma WordIsMasked(a: Word)
    ensures Mask64(a) == a
  {
  }

  lemma WordSplitMixIsSplitMix(v: Word)
    ensures WordSplitMix(v) == SplitMix(v)
  {
    WordAddIsMaskedAdd(v, SPLIT_ADD);
    WordIsMasked(WordSplitMix(v));
  }

  function WordBasis(key: Key): Word {
    WordXorOf(WordXorOf(Mask64(key.seed), Mask64(key.passIndex * PASS_MIX)), Mask64(key.roundIndex * ROUND_MIX))
  }

  lemma ShiftIsMaskedDouble(idx: Word)
    ensures WordShiftLeft(idx, 1) == Mask64(2 * idx)
    ensures WordShiftLeft(idx, 2) == Mask64(4 * idx)
  {
  }

  function WordMask(key: Key, matrixId: int, idx: Word, mixIndex: nat): byte {
    var basis := WordXorOf(WordBasis(key), Mask64(mixIndex * MIX_ROUND_MIX));
    (if matrixId == 0 then WordSplitMix(WordXorOf(WordXorOf(basis, WordShiftLeft(idx, 1)), MIX_A_OFFSET))
     else WordSplitMix(WordXorOf(WordXorOf(basis, WordShiftLeft(idx, 2)), MIX_B_OFFSET))) % 256
  }

  lemma WordMaskIsMixMask(key: Key, matrixId: int, idx: Word, mixIndex: nat)
    ensures WordMask(key, matrixId, idx, mixIndex) == MixMask(key, matrixId, idx, mixIndex)
  {
    ShiftIsMaskedDouble(idx);
    var basis := WordXorOf(WordBasis(key), Mask64(mixIndex * MIX_ROUND_MIX));
    WordSplitMixIsSplitMix(WordXorOf(WordXorOf(basis, WordShiftLeft(idx, 1)), MIX_A_OFFSET));
    WordSplitMixIsSplitMix(WordXorOf(WordXorOf(basis, WordShiftLeft(idx, 2)), MIX_B_OFFSET));
  }

  /** The byte of the vector form after k rounds, kept offset by 128. */
  function OffsetByte(key: Key, matrixId: int, idx: Word, k: nat): byte {
    if k == 0 then
      WordSplitMix(WordXorOf(WordXorOf(WordBasis(key), idx), if matrixId == 0 then A_MIX else B_MIX)) % 256
    else ByteXor(OffsetByte(key, matrixId, idx, k - 1), WordMask(key, matrixId, idx, k - 1))
  }

  lemma FillIsOffset(key: Key, matrixId: int, idx: Word)
    ensures FillValue(key, matrixId, idx) == OffsetByte(key, matrixId, idx, 0) - 128
  {
    WordIsMasked(idx);
    WordSplitMixIsSplitMix(WordXorOf(WordXorOf(WordBasis(key), idx), if matrixId == 0 then A_MIX else B_MIX));
  }

  /** After every round the two forms hold the same value, one offset by 128 and
      the other in two's complement. */
  lemma {:induction false} OffsetRefinesMixed(key: Key, matrixId: int, idx: Word, k: nat)
    ensures MixedByte(key, matrixId, idx, k) == (OffsetByte(key, matrixId, idx, k) + 128) % 256
    decreases k
  {
    hide FillValue, MixMask, WordMask, WordSplitMix, WordBasis, WordXorOf, Xor;
    if k == 0 {
      FillIsOffset(key, matrixId, idx);
    } else {
      OffsetRefinesMixed(key, matrixId, idx, k - 1);
      WordMaskIsMixMask(key, matrixId, idx, k - 1);
      OffsetMask(OffsetByte(key, matrixId, idx, k - 1), WordMask(key, matrixId, idx, k - 1));
    }
  }

  /** Element by element, the vector value is the scalar value. */
  lemma VectorRefinesScalar(key: Key, matrixId: int, idx: Word, rounds: nat)
    requires matrixId == 0 || matrixId == 1
    ensures ScalarAfterMix(key, matrixId, idx, rounds) == Values([OffsetByte(key, matrixId, idx, rounds) - 128])
  {
    hide FillValue, WordSplitMix, WordBasis, WordXorOf, Xor, MixMask, WordMask, MixedByte, OffsetByte;
    if rounds == 0 {
      FillIsOffset(key, matrixId, idx);
    } else {
      OffsetRefinesMixed(key, matrixId, idx, rounds);
    }
  }

  /** `workspace_i8_values_after_mix`: whole columns of bytes, one mix round
      after the other; the result agrees with the scalar form everywhere. */
  method ValuesAfterMix(key: Key, matrixId: int, indices: seq<Word>, rounds: int) returns (r: FillResult)
    ensures matrixId != 0 && matrixId != 1 ==> r == UnsupportedMatrix
    ensures (matrixId == 0 || matrixId == 1) && rounds < 0 ==> r == UnsupportedRounds
    ensures (matrixId == 0 || matrixId == 1) && rounds >= 0 ==>
      && r.Values? && |r.v| == |indices|
      && forall k :: 0 <= k < |indices| ==> ScalarAfterMix(key, matrixId, indices[k], rounds) == Values([r.v[k]])
  {
    hide FillValue, WordMask, WordSplitMix, WordBasis, WordXorOf, Xor, ScalarAfterMix;
    if matrixId != 0 && matrixId != 1 {
      return UnsupportedMatrix;
    }
    if rounds < 0 {
      return UnsupportedRounds;
    }
    var n := |indices|;
    var basis := WordBasis(key);
    var aValues := seq(n, k requires 0 <= k < n => WordSplitMix(WordXorOf(WordXorOf(basis, indices[k]), A_MIX)) % 256);
    var bValues := seq(n, k requires 0 <= k < n => WordSplitMix(WordXorOf(WordXorOf(basis, indices[k]), B_MIX)) % 256);
    for mixIndex := 0 to rounds
      invariant |aValues| == n && |bValues| == n
      invariant forall k :: 0 <= k < n ==> aValues[k] == OffsetByte(key, 0, indices[k], mixIndex)
      invariant forall k :: 0 <= k < n ==> bValues[k] == OffsetByte(key, 1, indices[k], mixIndex)
    {
      aValues := seq(n, k requires 0 <= k < n && |aValues| == n => ByteXor(aValues[k], WordMask(key, 0, indices[k], mixIndex)));
      bValues := seq(n, k requires 0 <= k < n && |bValues| == n => ByteXor(bValues[k], WordMask(key, 1, indices[k], mixIndex)));
    }
    var selected := if matrixId == 0 then aValues else bValues;
    forall k | 0 <= k < n
      ensures ScalarAfterMix(key, matrixId, indices[k], rounds) == Values([selected[k] - 128])
    {
      VectorRefinesScalar(key, matrixId, indices[k], rounds);
    }
    r := Values(seq(n, k requires 0 <= k < n => selected[k] as int - 128));
  }
}
