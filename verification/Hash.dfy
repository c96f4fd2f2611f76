/**
 The 32-bit mixers, over words modelled as numbers below 2^32. Bitwise exclusive or and
 right shift are defined bit by bit; multiplication and addition wrap modulo 2^32.
 */
module Hash {
  import opened Geometry

  type Word = n: nat | n < U32_MODULUS

  // ----- Bit operations -----

  function BitXor(a: nat, b: nat): nat {
    if a == 0 && b == 0 then 0 else 2 * BitXor(a / 2, b / 2) + (a + b) % 2
  }

  function Shr(a: nat, n: nat): nat {
    if n == 0 then a else Shr(a / 2, n - 1)
  }

  lemma {:induction false} XorHalves(a: nat, b: nat)
    ensures BitXor(a, b) / 2 == BitXor(a / 2, b / 2) && BitXor(a, b) % 2 == (a + b) % 2
  {
  }

  lemma {:induction false} XorCommutes(a: nat, b: nat)
    ensures BitXor(a, b) == BitXor(b, a)
  {
    if a != 0 || b != 0 {
      XorCommutes(a / 2, b / 2);
    }
  }

  lemma {:induction false} XorZero(a: nat)
    ensures BitXor(a, 0) == a
  {
    if a != 0 {
      XorZero(a / 2);
    }
  }

  lemma {:induction false} XorAssociates(a: nat, b: nat, c: nat)
    ensures BitXor(BitXor(a, b), c) == BitXor(a, BitXor(b, c))
    decreases a + b + c
  {
    if a != 0 || b != 0 || c != 0 {
      hide BitXor;
      var ab, bc := BitXor(a, b), BitXor(b, c);
      XorHalves(a, b);
      XorHalves(b, c);
      XorAssociates(a / 2, b / 2, c / 2);
      XorStep(ab, c);
      XorStep(a, bc);
      ParityAssociates(a, b, c, ab, bc);
      assert ab / 2 == BitXor(a / 2, b / 2) && bc / 2 == BitXor(b / 2, c / 2);
    }
  }

  lemma ParityAssociates(a: nat, b: nat, c: nat, x: nat, y: nat)
    requires x % 2 == (a + b) % 2 && y % 2 == (b + c) % 2
    ensures (x + c) % 2 == (a + y) % 2
  {
  }

  lemma XorStep(a: nat, b: nat)
    ensures BitXor(a, b) == 2 * BitXor(a / 2, b / 2) + (a + b) % 2
  {
  }

  lemma {:induction false} XorSelf(a: nat)
    ensures BitXor(a, a) == 0
  {
    if a != 0 {
      XorSelf(a / 2);
    }
  }

  function BitsDiffer(x: nat, y: nat): nat {
    if x == y then 0 else 1
  }

  lemma XorShifted(a: nat, x: nat, b: nat, y: nat)
    requires x < 2 && y < 2
    ensures BitXor(2 * a + x, 2 * b + y) == 2 * BitXor(a, b) + BitsDiffer(x, y)
  {
    hide BitXor;
    XorStep(2 * a + x, 2 * b + y);
  }

  /** Exclusive or works on the last hexadecimal digit, given by its bits, and on the rest separately. */
  lemma {:induction false} XorHex(high: nat, high': nat, p: nat, q: nat, r: nat, s: nat,
                                  p': nat, q': nat, r': nat, s': nat)
    requires p < 2 && q < 2 && r < 2 && s < 2 && p' < 2 && q' < 2 && r' < 2 && s' < 2
    ensures BitXor(16 * high + 8 * p + 4 * q + 2 * r + s, 16 * high' + 8 * p' + 4 * q' + 2 * r' + s')
            == 16 * BitXor(high, high')
               + 8 * BitsDiffer(p, p') + 4 * BitsDiffer(q, q') + 2 * BitsDiffer(r, r') + BitsDiffer(s, s')
  {
    hide BitXor, BitsDiffer;
    XorShifted(8 * high + 4 * p + 2 * q + r, s, 8 * high' + 4 * p' + 2 * q' + r', s');
    XorShifted(4 * high + 2 * p + q, r, 4 * high' + 2 * p' + q', r');
    XorShifted(2 * high + p, q, 2 * high' + p', q');
    XorShifted(high, p, high', p');
  }

  /** Exclusive or with `b` is undone by exclusive or with `b`. */
  lemma {:induction false} XorUndone(a: nat, b: nat)
    ensures BitXor(BitXor(a, b), b) == a && BitXor(b, BitXor(b, a)) == a && BitXor(b, BitXor(a, b)) == a
  {
    XorAssociates(a, b, b);
    XorSelf(b);
    XorZero(a);
    XorCommutes(a, b);
    XorCommutes(BitXor(a, b), b);
  }

  lemma {:induction false} XorBound(a: nat, b: nat, k: nat)
    requires a < Pow2(k) && b < Pow2(k)
    ensures BitXor(a, b) < Pow2(k)
  {
    if a != 0 || b != 0 {
      XorBound(a / 2, b / 2, k - 1);
    }
  }

  lemma {:induction false} XorOfShifted(a: nat, b: nat, n: nat)
    ensures Shr(BitXor(a, b), n) == BitXor(Shr(a, n), Shr(b, n))
    decreases n
  {
    if n != 0 {
      XorHalves(a, b);
      XorOfShifted(a / 2, b / 2, n - 1);
    }
  }

  lemma {:induction false} ShiftsAdd(a: nat, m: nat, n: nat)
    ensures Shr(Shr(a, m), n) == Shr(a, m + n)
    decreases m
  {
    if m != 0 {
      ShiftsAdd(a / 2, m - 1, n);
    }
  }

  lemma {:induction false} ShiftBound(a: nat, n: nat)
    ensures Shr(a, n) <= a
    ensures a < Pow2(n) ==> Shr(a, n) == 0
    decreases n
  {
    if n != 0 {
      ShiftBound(a / 2, n - 1);
    }
  }

  lemma WordBits(a: Word)
    ensures a < Pow2(32)
    ensures Pow2(32) == U32_MODULUS
  {
    hide Pow2;
    Pow2OfFour();
    Pow2Adds(4, 4);
    Pow2Adds(8, 8);
    Pow2Adds(16, 16);
  }

  lemma Pow2OfFour()
    ensures Pow2(4) == 16
  {
  }

  lemma {:induction false} Pow2Adds(m: nat, n: nat)
    ensures Pow2(m + n) == Pow2(m) * Pow2(n)
  {
    if m != 0 {
      Pow2Adds(m - 1, n);
    }
  }

  lemma {:induction false} ShiftedOut(a: Word, n: nat)
    requires n >= 32
    ensures Shr(a, n) == 0
  {
    WordBits(a);
    ShiftBound(a, 32);
    ShiftsAdd(a, 32, n - 32);
    ShiftBound(0, n - 32);
  }

  /** The exclusive or of two words. */
  function Xor(a: Word, b: Word): Word {
    WordBits(a);
    WordBits(b);
    XorBound(a, b, 32);
    BitXor(a, b)
  }

  lemma {:induction false} WordXorUndone(a: Word, b: Word)
    ensures Xor(Xor(a, b), b) == a && Xor(b, Xor(b, a)) == a && Xor(b, Xor(a, b)) == a
  {
    XorUndone(a, b);
  }

  // ----- Invertible steps -----

  function XorShift(h: Word, n: nat): Word {
    ShiftBound(h, n);
    Xor(h, Shr(h, n))
  }

  /** A shift by half the word or more is its own inverse. */
  lemma {:induction false} LongXorShiftUndone(h: Word, n: nat)
    requires n >= 16
    ensures XorShift(XorShift(h, n), n) == h
  {
    var s := Shr(h, n);
    assert Shr(BitXor(h, s), n) == s by {
      XorOfShifted(h, s, n);
      ShiftsAdd(h, n, n);
      ShiftedOut(h, n + n);
      XorZero(s);
    }
    XorUndone(h, s);
  }

  function UnXorShift(h: Word, n: nat): Word {
    ShiftBound(h, n);
    ShiftBound(h, n + n);
    Xor(Xor(h, Shr(h, n)), Shr(h, n + n))
  }

  /** A shift by at least a third of the word is undone by two shifts. */
  lemma {:induction false} XorShiftUndone(h: Word, n: nat)
    requires n >= 11
    ensures UnXorShift(XorShift(h, n), n) == h && XorShift(UnXorShift(h, n), n) == h
  {
    var s, q := Shr(h, n), Shr(h, n + n);
    ShiftTwice(h, n);
    assert BitXor(BitXor(BitXor(h, s), BitXor(s, q)), q) == h by {
      XorAssociates(BitXor(h, s), BitXor(s, q), q);
      XorUndone(s, q);
      XorUndone(h, s);
    }
    assert BitXor(BitXor(BitXor(h, s), q), BitXor(s, q)) == h by {
      XorAssociates(h, s, q);
      XorUndone(h, BitXor(s, q));
    }
  }

  lemma {:induction false} ShiftTwice(h: Word, n: nat)
    requires n >= 11
    ensures var s, q := Shr(h, n), Shr(h, n + n);
            && Shr(BitXor(h, s), n) == BitXor(s, q)
            && Shr(BitXor(h, s), n + n) == q
            && Shr(BitXor(BitXor(h, s), q), n) == BitXor(s, q)
  {
    var s, q := Shr(h, n), Shr(h, n + n);
    ShiftsAdd(h, n, n);
    ShiftsAdd(h, n, n + n);
    ShiftsAdd(h, n + n, n);
    ShiftedOut(h, n + n + n);
    XorOfShifted(h, s, n);
    XorOfShifted(h, s, n + n);
    XorZero(q);
    XorOfShifted(BitXor(h, s), q, n);
    XorZero(BitXor(s, q));
  }

  function Mul(a: Word, k: Word): Word {
    (a * k) % U32_MODULUS
  }

  predicate AreInverse(k: Word, inv: Word) {
    (k * inv) % U32_MODULUS == 1
  }

  lemma ResidueIs(x: int, r: Word, j: int)
    requires x == r + U32_MODULUS * j
    ensures x % U32_MODULUS == r
  {
  }

  lemma ProductIs(a: Word, k: Word, r: Word, j: int)
    requires a * k == r + U32_MODULUS * j
    ensures Mul(a, k) == r
  {
    ResidueIs(a * k, r, j);
  }

  /** Multiplying by a constant is undone by multiplying by its inverse modulo 2^32. */
  lemma {:induction false} MulUndone(a: Word, k: Word, inv: Word)
    requires AreInverse(k, inv)
    ensures Mul(Mul(a, k), inv) == a
  {
    var q, t := (a * k) / U32_MODULUS, (k * inv) / U32_MODULUS;
    assert a * k == Mul(a, k) + U32_MODULUS * q;
    assert k * inv == 1 + U32_MODULUS * t;
    calc {
      Mul(a, k) * inv;
      (a * k - U32_MODULUS * q) * inv;
      { ProductSteps(a, k, inv, q); }
      a * (k * inv) - U32_MODULUS * (q * inv);
      a * (1 + U32_MODULUS * t) - U32_MODULUS * (q * inv);
      { SumSteps(a, t, q * inv); }
      a + U32_MODULUS * (a * t - q * inv);
    }
    ResidueIs(Mul(a, k) * inv, a, a * t - q * inv);
  }

  lemma ProductSteps(a: int, k: int, inv: int, q: int)
    ensures (a * k - U32_MODULUS * q) * inv == a * (k * inv) - U32_MODULUS * (q * inv)
  {
  }

  lemma SumSteps(a: int, t: int, p: int)
    ensures a * (1 + U32_MODULUS * t) - U32_MODULUS * p == a + U32_MODULUS * (a * t - p)
  {
  }

  function Add(a: Word, k: Word): Word {
    (a + k) % U32_MODULUS
  }

  function Sub(a: Word, k: Word): Word {
    (a - k) % U32_MODULUS
  }

  /** Rotation left by 15: the low 17 bits move up and the high 15 bits come round. */
  function Rotl15(h: Word): Word {
    h % 0x2_0000 * 0x8000 + h / 0x2_0000
  }

  function Rotr15(h: Word): Word {
    h % 0x8000 * 0x2_0000 + h / 0x8000
  }

  function Rotl13(h: Word): Word {
    h % 0x8_0000 * 0x2000 + h / 0x8_0000
  }

  function Rotr13(h: Word): Word {
    h % 0x2000 * 0x8_0000 + h / 0x2000
  }

  lemma RotationsUndone(h: Word)
    ensures Rotr15(Rotl15(h)) == h && Rotl15(Rotr15(h)) == h
    ensures Rotr13(Rotl13(h)) == h && Rotl13(Rotr13(h)) == h
  {
    Rotation15Undone(h);
    Rotation13Undone(h);
  }

  lemma Rotation15Undone(h: Word)
    ensures Rotr15(Rotl15(h)) == h && Rotl15(Rotr15(h)) == h
  {
    QuotientAndRest(h % 0x2_0000, h / 0x2_0000, 0x8000);
    QuotientAndRest(h % 0x8000, h / 0x8000, 0x2_0000);
  }

  lemma Rotation13Undone(h: Word)
    ensures Rotr13(Rotl13(h)) == h && Rotl13(Rotr13(h)) == h
  {
    QuotientAndRest(h % 0x8_0000, h / 0x8_0000, 0x2000);
    QuotientAndRest(h % 0x2000, h / 0x2000, 0x8_0000);
  }

  lemma QuotientAndRest(q: nat, r: nat, d: nat)
    requires r < d
    ensures (q * d + r) / d == q && (q * d + r) % d == r
  {
    WholeQuotientIs(q * d + r, d, q);
  }

  // ----- fmix32 -----

  const FMIX_A: Word := 0x85eb_ca6b
  const FMIX_B: Word := 0xc2b2_ae35
  const FMIX_A_INVERSE: Word := 0xa5cb_9243
  const FMIX_B_INVERSE: Word := 0x7ed1_b41d

  function Fmix32(h: Word): Word {
    XorShift(Mul(XorShift(Mul(XorShift(h, 16), FMIX_A), 13), FMIX_B), 16)
  }

  method HashFmix32(word: Word) returns (h: Word)
    ensures h == Fmix32(word) && UnFmix32(h) == word
  {
    Fmix32IsBijective(word);
    hide UnFmix32;
    h := word;
    h := XorShift(h, 16);
    h := Mul(h, FMIX_A);
    h := XorShift(h, 13);
    h := Mul(h, FMIX_B);
    h := XorShift(h, 16);
  }

  function UnFmix32(h: Word): Word {
    XorShift(Mul(UnXorShift(Mul(XorShift(h, 16), FMIX_B_INVERSE), 13), FMIX_A_INVERSE), 16)
  }

  lemma {:induction false} FmixScalesUndone(h: Word)
    ensures Mul(Mul(h, FMIX_A), FMIX_A_INVERSE) == h && Mul(Mul(h, FMIX_A_INVERSE), FMIX_A) == h
    ensures Mul(Mul(h, FMIX_B), FMIX_B_INVERSE) == h && Mul(Mul(h, FMIX_B_INVERSE), FMIX_B) == h
  {
    MulUndone(h, FMIX_A, FMIX_A_INVERSE);
    MulUndone(h, FMIX_A_INVERSE, FMIX_A);
    MulUndone(h, FMIX_B, FMIX_B_INVERSE);
    MulUndone(h, FMIX_B_INVERSE, FMIX_B);
  }

  lemma {:induction false} FmixShiftsUndone(h: Word)
    ensures XorShift(XorShift(h, 16), 16) == h
    ensures UnXorShift(XorShift(h, 13), 13) == h && XorShift(UnXorShift(h, 13), 13) == h
  {
    LongXorShiftUndone(h, 16);
    XorShiftUndone(h, 13);
  }

  lemma {:induction false} Fmix32Undone(h: Word)
    ensures UnFmix32(Fmix32(h)) == h
  {
    var a := XorShift(h, 16);
    var b := Mul(a, FMIX_A);
    var c := XorShift(b, 13);
    FmixShiftsUndone(Mul(c, FMIX_B));
    FmixScalesUndone(c);
    FmixShiftsUndone(b);
    FmixScalesUndone(a);
    FmixShiftsUndone(h);
  }

  lemma {:induction false} Fmix32Reached(h: Word)
    ensures Fmix32(UnFmix32(h)) == h
  {
    var a := XorShift(h, 16);
    var b := Mul(a, FMIX_B_INVERSE);
    var c := UnXorShift(b, 13);
    FmixShiftsUndone(Mul(c, FMIX_A_INVERSE));
    FmixScalesUndone(c);
    FmixShiftsUndone(b);
    FmixScalesUndone(a);
    FmixShiftsUndone(h);
  }

  /** `UnFmix32` is a two-sided inverse, so `fmix32` is a bijection on all words. */
  lemma Fmix32IsBijective(h: Word)
    ensures UnFmix32(Fmix32(h)) == h && Fmix32(UnFmix32(h)) == h
  {
    Fmix32Undone(h);
    Fmix32Reached(h);
  }

  // ----- murmur3 -----

  const MURMUR_A: Word := 0xcc9e_2d51
  const MURMUR_B: Word := 0x1b87_3593
  const MURMUR_A_INVERSE: Word := 0xdee1_3bb1
  const MURMUR_B_INVERSE: Word := 0x56ed_309b
  const FIVE_INVERSE: Word := 0xcccc_cccd
  const MURMUR_ADD: Word := 0xe654_6b64

  function Scramble(input: Word): Word {
    Mul(Rotl15(Mul(input, MURMUR_A)), MURMUR_B)
  }

  function Stir(mixed: Word): Word {
    Add(Mul(Rotl13(mixed), 5), MURMUR_ADD)
  }

  function Murmur3(input: Word, seed: Word): Word {
    Stir(Xor(seed, Scramble(input)))
  }

  method HashMurmur3One32(word: Word, start: Word) returns (seed: Word)
    ensures seed == Murmur3(word, start)
    ensures Xor(Unstir(seed), Scramble(word)) == start && Unscramble(Xor(start, Unstir(seed))) == word
  {
    Murmur3IsBijectiveInSeed(word, start, 0);
    Murmur3IsBijectiveInInput(word, start, 0);
    hide Unstir, Unscramble;
    var input := Mul(word, MURMUR_A);
    input := Rotl15(input);
    input := Mul(input, MURMUR_B);

    seed := Xor(start, input);
    seed := Rotl13(seed);
    seed := Add(Mul(seed, 5), MURMUR_ADD);
  }

  function Unscramble(k: Word): Word {
    Mul(Rotr15(Mul(k, MURMUR_B_INVERSE)), MURMUR_A_INVERSE)
  }

  function Unstir(h: Word): Word {
    Rotr13(Mul(Sub(h, MURMUR_ADD), FIVE_INVERSE))
  }

  lemma MurmurInverses()
    ensures AreInverse(MURMUR_A, MURMUR_A_INVERSE) && AreInverse(MURMUR_A_INVERSE, MURMUR_A)
    ensures AreInverse(MURMUR_B, MURMUR_B_INVERSE) && AreInverse(MURMUR_B_INVERSE, MURMUR_B)
    ensures AreInverse(5, FIVE_INVERSE) && AreInverse(FIVE_INVERSE, 5)
  {
  }

  lemma {:induction false} ScrambleUndone(x: Word)
    ensures Unscramble(Scramble(x)) == x && Scramble(Unscramble(x)) == x
  {
    hide Mul, Rotl15, Rotr15, AreInverse;
    MurmurInverses();
    MulUndone(x, MURMUR_A, MURMUR_A_INVERSE);
    RotationsUndone(Mul(x, MURMUR_A));
    MulUndone(Rotl15(Mul(x, MURMUR_A)), MURMUR_B, MURMUR_B_INVERSE);
    MulUndone(x, MURMUR_B_INVERSE, MURMUR_B);
    RotationsUndone(Mul(x, MURMUR_B_INVERSE));
    MulUndone(Rotr15(Mul(x, MURMUR_B_INVERSE)), MURMUR_A_INVERSE, MURMUR_A);
  }

  lemma AddUndone(a: Word, k: Word)
    ensures Sub(Add(a, k), k) == a && Add(Sub(a, k), k) == a
  {
    ResidueIs(Add(a, k) - k, a, if a + k < U32_MODULUS then 0 else -1);
    ResidueIs(Sub(a, k) + k, a, if a < k then 1 else 0);
  }

  lemma {:induction false} StirUndone(m: Word)
    ensures Unstir(Stir(m)) == m && Stir(Unstir(m)) == m
  {
    hide Mul, Add, Sub, Rotl13, Rotr13, AreInverse;
    MurmurInverses();
    AddUndone(Mul(Rotl13(m), 5), MURMUR_ADD);
    MulUndone(Rotl13(m), 5, FIVE_INVERSE);
    RotationsUndone(m);
    AddUndone(m, MURMUR_ADD);
    MulUndone(Sub(m, MURMUR_ADD), FIVE_INVERSE, 5);
    RotationsUndone(Mul(Sub(m, MURMUR_ADD), FIVE_INVERSE));
  }

  /** For each input, `murmur3` is a bijection of the seed. */
  lemma {:induction false} Murmur3IsBijectiveInSeed(input: Word, seed: Word, h: Word)
    ensures Xor(Unstir(Murmur3(input, seed)), Scramble(input)) == seed
    ensures Murmur3(input, Xor(Unstir(h), Scramble(input))) == h
  {
    StirUndone(Xor(seed, Scramble(input)));
    StirUndone(h);
    XorUndone(seed, Scramble(input));
    XorUndone(Unstir(h), Scramble(input));
  }

  /** For each seed, `murmur3` is a bijection of the input. */
  lemma {:induction false} Murmur3IsBijectiveInInput(input: Word, seed: Word, h: Word)
    ensures Unscramble(Xor(seed, Unstir(Murmur3(input, seed)))) == input
    ensures Murmur3(Unscramble(Xor(seed, Unstir(h))), seed) == h
  {
    StirUndone(Xor(seed, Scramble(input)));
    XorUndone(Scramble(input), seed);
    ScrambleUndone(input);
    ScrambleUndone(Xor(seed, Unstir(h)));
    XorUndone(Unstir(h), seed);
    StirUndone(h);
  }

  // ----- djb2 -----

  const MULTIPLIER_33_INVERSE: Word := 0x3e0f_83e1

  /** `prev << 5` drops the high bits and the addition wraps. */
  function Djb2(input: Word, prev: Word): Word {
    Xor(Add(Mul(prev, 32), prev), input)
  }

  lemma Times33(prev: Word)
    ensures Add(Mul(prev, 32), prev) == Mul(prev, 33)
  {
  }

  lemma {:induction false} Djb2InputFound(input: Word, prev: Word, h: Word)
    ensures Xor(Mul(prev, 33), Djb2(input, prev)) == input
    ensures Djb2(Xor(Mul(prev, 33), h), prev) == h
  {
    hide Xor, Mul, Add;
    Times33(prev);
    WordXorUndone(input, Mul(prev, 33));
    WordXorUndone(h, Mul(prev, 33));
  }

  lemma {:induction false} Djb2PrevFound(input: Word, prev: Word)
    ensures Mul(Xor(Djb2(input, prev), input), MULTIPLIER_33_INVERSE) == prev
  {
    hide Xor, Mul, Add;
    Times33(prev);
    WordXorUndone(Mul(prev, 33), input);
    MulUndone(prev, 33, MULTIPLIER_33_INVERSE);
  }

  lemma {:induction false} Djb2PrevReached(input: Word, h: Word)
    ensures Djb2(input, Mul(Xor(h, input), MULTIPLIER_33_INVERSE)) == h
  {
    var p := Mul(Xor(h, input), MULTIPLIER_33_INVERSE);
    hide Xor, Mul, Add;
    Times33(p);
    MulUndone(Xor(h, input), MULTIPLIER_33_INVERSE, 33);
    WordXorUndone(h, input);
  }

  /** `djb2` is a bijection of the input for each previous hash, and of the previous hash for each input. */
  lemma {:induction false} Djb2IsBijective(input: Word, prev: Word, h: Word)
    ensures Xor(Mul(prev, 33), Djb2(input, prev)) == input
    ensures Djb2(Xor(Mul(prev, 33), h), prev) == h
    ensures Mul(Xor(Djb2(input, prev), input), MULTIPLIER_33_INVERSE) == prev
    ensures Djb2(input, Mul(Xor(h, input), MULTIPLIER_33_INVERSE)) == h
  {
    Djb2InputFound(input, prev, h);
    Djb2PrevFound(input, prev);
    Djb2PrevReached(input, h);
  }

  // ----- What the shifts are, and some known hashes -----

  /** A right shift divides by a power of two. */
  lemma {:induction false} ShiftIsQuotient(a: nat, n: nat)
    ensures Shr(a, n) == a / Pow2(n)
    decreases n
  {
    if n != 0 {
      ShiftIsQuotient(a / 2, n - 1);
      HalfThenRest(a, Pow2(n - 1));
    }
  }

  lemma HalfThenRest(a: nat, p: nat)
    requires p >= 1
    ensures a / 2 / p == a / (2 * p)
  {
    var q := a / 2 / p;
    QuotientReaches(a / 2, p, q);
    QuotientReaches(a / 2, p, q + 1);
    OneMore(q, p);
    assert q * (2 * p) == 2 * (q * p);
    WholeQuotientIs(a, 2 * p, q);
  }

  /** Every bit of an exclusive or is one exactly when the two bits differ. */
  lemma {:induction false} XorBits(a: nat, b: nat, n: nat)
    ensures Shr(BitXor(a, b), n) % 2 == if Shr(a, n) % 2 == Shr(b, n) % 2 then 0 else 1
  {
    XorOfShifted(a, b, n);
    hide Shr;
    XorHalves(Shr(a, n), Shr(b, n));
  }

  lemma {:induction false} FirstMixXor()
    ensures BitXor(0x85eb_ca6b, 0x4_2f5e) == 0x85ef_e535
  {
    hide BitXor;
    XorHex(0x85e_bca6, 0x42f5, 1, 0, 1, 1, 1, 1, 1, 0);
    XorHex(0x85_ebca, 0x42f, 0, 1, 1, 0, 0, 1, 0, 1);
    XorHex(0x8_5ebc, 0x42, 1, 0, 1, 0, 1, 1, 1, 1);
    XorHex(0x85eb, 0x4, 1, 1, 0, 0, 0, 0, 1, 0);
    XorHex(0x85e, 0x0, 1, 0, 1, 1, 0, 1, 0, 0);
    XorHex(0x85, 0x0, 1, 1, 1, 0, 0, 0, 0, 0);
    XorHex(0x8, 0x0, 0, 1, 0, 1, 0, 0, 0, 0);
    XorHex(0x0, 0x0, 1, 0, 0, 0, 0, 0, 0, 0);
    XorZero(0);
  }

  lemma {:induction false} SecondMixXor()
    ensures BitXor(0x514e_79f9, 0x514e) == 0x514e_28b7
  {
    hide BitXor;
    XorHex(0x514_e79f, 0x514, 1, 0, 0, 1, 1, 1, 1, 0);
    XorHex(0x51_4e79, 0x51, 1, 1, 1, 1, 0, 1, 0, 0);
    XorHex(0x5_14e7, 0x5, 1, 0, 0, 1, 0, 0, 0, 1);
    XorHex(0x514e, 0x0, 0, 1, 1, 1, 0, 1, 0, 1);
    XorHex(0x514, 0x0, 1, 1, 1, 0, 0, 0, 0, 0);
    XorHex(0x51, 0x0, 0, 1, 0, 0, 0, 0, 0, 0);
    XorHex(0x5, 0x0, 0, 0, 0, 1, 0, 0, 0, 0);
    XorHex(0x0, 0x0, 0, 1, 0, 1, 0, 0, 0, 0);
    XorZero(0);
  }

  lemma MixShifts()
    ensures Shr(0x85eb_ca6b, 13) == 0x4_2f5e && Shr(0x514e_79f9, 16) == 0x514e && Shr(1, 16) == 0
  {
    assert Pow2(13) == 0x2000 && Pow2(16) == 0x1_0000 by {
      assert Pow2(4) == 16 && Pow2(8) == 256 && Pow2(12) == 4096;
    }
    ShiftIsQuotient(0x85eb_ca6b, 13);
    ShiftIsQuotient(0x514e_79f9, 16);
    ShiftIsQuotient(1, 16);
  }

  lemma {:induction false} KnownFmix32()
    ensures Fmix32(1) == 0x514e_28b7
  {
    MixShifts();
    XorZero(1);
    FirstMixXor();
    SecondMixXor();
    ProductIs(1, FMIX_A, 0x85eb_ca6b, 0);
    ProductIs(0x85ef_e535, FMIX_B, 0x514e_79f9, 1709000612);
    hide BitXor, Shr, Mul;
  }

  lemma {:induction false} KnownMurmur3()
    ensures Murmur3(1, 0) == 0x26cf_0576
  {
    hide BitXor, Mul, Rotl13, Rotl15, Add;
    KnownSteps();
    ProductIs(1, MURMUR_A, 0xcc9e_2d51, 0);
    ProductIs(0x16a8_e64f, MURMUR_B, 0xc353_9a5d, 40880153);
    XorZero(0xc353_9a5d);
    XorCommutes(0, 0xc353_9a5d);
    ProductIs(0x734b_b86a, 5, 0x407a_9a12, 2);
  }

  lemma KnownSteps()
    ensures Rotl15(0xcc9e_2d51) == 0x16a8_e64f && Rotl13(0xc353_9a5d) == 0x734b_b86a
    ensures Add(0x407a_9a12, MURMUR_ADD) == 0x26cf_0576 && Add(172_192, 5381) == 177_573
  {
  }

  /** The hash of 1 from the default start 5381. */
  lemma {:induction false} KnownDjb2()
    ensures Djb2(1, 5381) == 177_572
  {
    hide BitXor, Mul, Add;
    KnownSteps();
    ProductIs(5381, 32, 172_192, 0);
    XorShifted(88_786, 1, 0, 1);
    XorZero(88_786);
  }
}
