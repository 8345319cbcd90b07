/** The ids fonts are registered under (src/SdCardFontSystem.cpp), as unsigned 32-bit words. */
module FontIds {

  const WORDS := 0x1_0000_0000

  type FontId = n: nat | n < WORDS

  type PointSize = n: nat | n < 256

  // --- Exclusive or ---

  function Xor(a: nat, b: nat): nat
    decreases a + b
  {
    if a == 0 && b == 0 then 0 else 2 * Xor(a / 2, b / 2) + (a + b) % 2
  }

  lemma {:induction false} XorHalves(a: nat, b: nat)
    ensures Xor(a, b) % 2 == (a + b) % 2 && Xor(a, b) / 2 == Xor(a / 2, b / 2)
  {
    Doubled(Xor(a / 2, b / 2), (a + b) % 2);
  }

  lemma {:induction false} Doubled(h: nat, p: nat)
    requires p < 2
    ensures (2 * h + p) % 2 == p && (2 * h + p) / 2 == h
  {
  }

  lemma {:induction false} XorCommutes(a: nat, b: nat)
    ensures Xor(a, b) == Xor(b, a)
    decreases a + b
  {
    if a > 0 || b > 0 {
      XorCommutes(a / 2, b / 2);
    }
  }

  lemma {:induction false} XorCancels(a: nat, b: nat, c: nat)
    requires Xor(a, b) == Xor(a, c)
    ensures b == c
    decreases a + b + c
  {
    if a > 0 || b > 0 || c > 0 {
      XorHalves(a, b);
      XorHalves(a, c);
      XorCancels(a / 2, b / 2, c / 2);
      SameParity(a, b, c);
    }
  }

  lemma {:induction false} SameParity(a: nat, b: nat, c: nat)
    requires (a + b) % 2 == (a + c) % 2 && b / 2 == c / 2
    ensures b == c
  {
  }

  function Pow2(n: nat): nat {
    if n == 0 then 1 else 2 * Pow2(n - 1)
  }

  lemma {:induction false} WordBits()
    ensures Pow2(32) == WORDS
  {
    assert Pow2(4) == 16 && Pow2(8) == 256 && Pow2(12) == 4096 && Pow2(16) == 65536 && Pow2(20) == 0x10_0000;
    assert Pow2(24) == 0x100_0000 && Pow2(28) == 0x1000_0000;
  }

  lemma {:induction false} XorFits(a: nat, b: nat, n: nat)
    requires a < Pow2(n) && b < Pow2(n)
    ensures Xor(a, b) < Pow2(n)
  {
    if n > 0 {
      XorFits(a / 2, b / 2, n - 1);
    }
  }

  // --- The hash ---

  /** Multiplication by the FNV prime in 32 bits. */
  function TimesPrime(x: nat): FontId {
    x * 16777619 % WORDS
  }

  /** The prime is odd, so the multiplication can be undone. */
  lemma {:induction false} PrimeHasInverse(x: FontId)
    ensures TimesPrime(x) * 899433627 % WORDS == x
  {
    var y: int, w: int, a: int := TimesPrime(x), x, x * 16777619 / WORDS;
    assert y == w * 16777619 - a * WORDS;
    assert y * 899433627 == w + WORDS * (w * 3513497 - a * 899433627);
    Remainder(y * 899433627, w * 3513497 - a * 899433627, x);
  }

  lemma {:induction false} Remainder(n: nat, q: int, x: FontId)
    requires n == x + WORDS * q
    ensures n % WORDS == x
  {
  }

  function Mixed(hash: nat, value: nat): FontId {
    TimesPrime(Xor(hash, value))
  }

  lemma {:induction false} MixedInjective(hash: FontId, p: FontId, q: FontId)
    requires Mixed(hash, p) == Mixed(hash, q)
    ensures p == q
  {
    WordBits();
    XorFits(hash, p, 32);
    XorFits(hash, q, 32);
    PrimeHasInverse(Xor(hash, p));
    PrimeHasInverse(Xor(hash, q));
    XorCancels(hash, p, q);
  }

  const FNV_OFFSET: FontId := 2166136261
  /** Keeps variants apart from reader and UI ids. */
  const VARIANT_SALT: FontId := 0x56415200

  /** Hash of the lowest `n` bytes of a reader font id, the lowest first. */
  function BytesHash(readerFontId: FontId, n: nat): FontId {
    if n == 0 then FNV_OFFSET else Mixed(BytesHash(readerFontId, n - 1), Shifted(readerFontId, 8 * (n - 1)) % 256)
  }

  function ReaderHash(readerFontId: FontId): FontId {
    BytesHash(readerFontId, 4)
  }

  function VariantHash(readerFontId: FontId, pointSize: PointSize): (hash: nat) {
    Xor(Mixed(ReaderHash(readerFontId), pointSize), VARIANT_SALT)
  }

  /** The variant id of a size; 0 is reserved, so a hash of 0 becomes 1. */
  function VariantFontId(readerFontId: FontId, pointSize: PointSize): (id: FontId)
    ensures id != 0
  {
    WordBits();
    XorFits(Mixed(ReaderHash(readerFontId), pointSize), VARIANT_SALT, 32);
    var hash := VariantHash(readerFontId, pointSize);
    if hash != 0 then hash else 1
  }

  /** SdCardFontSystem::variantFontId. */
  method ComputeVariantFontId(readerFontId: FontId, pointSize: PointSize) returns (id: FontId)
    ensures id == VariantFontId(readerFontId, pointSize)
  {
    var hash: FontId := 2166136261;
    var rest: nat, n: nat := readerFontId, 0;
    WordBits();
    while n < 4
      invariant n <= 4 && hash == BytesHash(readerFontId, n) && rest == Shifted(readerFontId, 8 * n)
    {
      ShiftedOn(readerFontId, 8 * n);
      hash := Xor(hash, rest % 256) * 16777619 % 0x1_0000_0000;
      rest := rest / 256;
      n := n + 1;
    }
    hash := Xor(hash, pointSize) * 16777619 % 0x1_0000_0000;
    XorFits(hash, VARIANT_SALT, 32);
    hash := Xor(hash, 0x5641_5200);
    id := if hash != 0 then hash else 1;
  }

  lemma {:induction false} ShiftedOn(a: nat, n: nat)
    ensures Shifted(a, n + 8) == Shifted(a, n) / 256
  {
    ShiftedAdd(a, n, 8);
    ShiftedByte(Shifted(a, n));
  }

  lemma {:induction false} ShiftedAdd(a: nat, m: nat, n: nat)
    ensures Shifted(a, m + n) == Shifted(Shifted(a, m), n)
  {
    if m > 0 {
      ShiftedAdd(a / 2, m - 1, n);
    }
  }

  lemma {:induction false} ShiftedByte(a: nat)
    ensures Shifted(a, 8) == a / 256
  {
    ShiftedPair(a);
    ShiftedAdd(a, 2, 2);
    ShiftedPair(a / 4);
    ShiftedAdd(a, 4, 2);
    ShiftedPair(a / 16);
    ShiftedAdd(a, 6, 2);
    ShiftedPair(a / 64);
  }

  lemma {:induction false} ShiftedPair(a: nat)
    ensures Shifted(a, 2) == a / 4
  {
    assert Shifted(a, 2) == Shifted(a / 2, 1) == Shifted(a / 2 / 2, 0);
  }

  lemma {:induction false} VariantHashInjective(readerFontId: FontId, p: PointSize, q: PointSize)
    requires VariantHash(readerFontId, p) == VariantHash(readerFontId, q)
    ensures p == q
  {
    var h := ReaderHash(readerFontId);
    XorCommutes(Mixed(h, p), VARIANT_SALT);
    XorCommutes(Mixed(h, q), VARIANT_SALT);
    XorCancels(VARIANT_SALT, Mixed(h, p), Mixed(h, q));
    MixedInjective(h, p, q);
  }

  /** No reader has one size that hashes to the reserved 0 and another that hashes to the 1 that replaces it: undoing
      the last step of the two hashes gives words that differ beyond the byte a size can change. */
  lemma {:induction false} ReservedIsAlone(readerFontId: FontId, p: PointSize, q: PointSize)
    requires VariantHash(readerFontId, p) == 0
    ensures VariantHash(readerFontId, q) != 1
  {
    var h := ReaderHash(readerFontId);
    assert Shifted(Unsalted(0), 8) == 0x8B_54A6 && Shifted(Unsalted(1), 8) == 0xC0_F0EA;
    Unmixed(h, p, 0);
    SizeKeepsHighBytes(h, p);
    SizeKeepsHighBytes(h, q);
    if VariantHash(readerFontId, q) == 1 {
      Unmixed(h, q, 1);
    }
  }

  /** The word whose product with the prime is the salt, and the one whose product differs from it in the last bit. */
  function Unsalted(target: nat): FontId
    requires target < 2
  {
    if target == 0 then 0x8B54_A600 else 0xC0F0_EA9B
  }

  lemma {:induction false} UnsaltedIs(target: nat, x: FontId)
    requires target < 2 && x == (VARIANT_SALT + target) * 899433627 % WORDS
    ensures x == Unsalted(target)
  {
    assert 0x5641_5200 * 899433627 % WORDS == 0x8B54_A600 && 0x5641_5201 * 899433627 % WORDS == 0xC0F0_EA9B;
  }

  lemma {:induction false} Unmixed(hash: FontId, size: PointSize, target: nat)
    requires target < 2 && Xor(Mixed(hash, size), VARIANT_SALT) == target
    ensures Xor(hash, size) == Unsalted(target)
  {
    SaltedBack(Mixed(hash, size), target);
    WordBits();
    XorFits(hash, size, 32);
    PrimeHasInverse(Xor(hash, size));
    UnsaltedIs(target, Xor(hash, size));
  }

  lemma {:induction false} SaltedBack(mixed: FontId, target: nat)
    requires target < 2 && Xor(mixed, VARIANT_SALT) == target
    ensures mixed == VARIANT_SALT + target
  {
    XorOfNeighbours(target);
    XorCommutes(mixed, VARIANT_SALT);
    XorCommutes(VARIANT_SALT + target, VARIANT_SALT);
    XorCancels(VARIANT_SALT, mixed, VARIANT_SALT + target);
  }

  lemma {:induction false} XorOfNeighbours(target: nat)
    requires target < 2
    ensures Xor(VARIANT_SALT + target, VARIANT_SALT) == target
  {
    XorNeighbours(VARIANT_SALT, target);
  }

  lemma {:induction false} XorNeighbours(a: nat, p: nat)
    requires a % 2 == 0 && p < 2
    ensures Xor(a + p, a) == p
  {
    assert (a + p) / 2 == a / 2 && (a + p + a) % 2 == p;
    XorSelf(a / 2);
    XorHalves(a + p, a);
  }

  lemma {:induction false} XorSelf(a: nat)
    ensures Xor(a, a) == 0
  {
    if a > 0 {
      XorSelf(a / 2);
    }
  }

  function Shifted(a: nat, n: nat): nat {
    if n == 0 then a else Shifted(a / 2, n - 1)
  }

  lemma {:induction false} XorShifted(a: nat, b: nat, n: nat)
    ensures Shifted(Xor(a, b), n) == Xor(Shifted(a, n), Shifted(b, n))
  {
    if n > 0 {
      XorHalves(a, b);
      XorShifted(a / 2, b / 2, n - 1);
    }
  }

  lemma {:induction false} SizeKeepsHighBytes(hash: FontId, size: PointSize)
    ensures Shifted(Xor(hash, size), 8) == Shifted(hash, 8)
  {
    XorShifted(hash, size, 8);
    ShiftedOut(size, 8);
    XorNothing(Shifted(hash, 8));
  }

  lemma {:induction false} ShiftedOut(a: nat, n: nat)
    requires a < Pow2(n)
    ensures Shifted(a, n) == 0
  {
    if n > 0 {
      ShiftedOut(a / 2, n - 1);
    }
  }

  lemma {:induction false} XorNothing(a: nat)
    ensures Xor(a, 0) == a
  {
    if a > 0 {
      XorNothing(a / 2);
    }
  }

  /** Two sizes of one reader font share a variant id only when they are the same size. */
  lemma {:induction false} VariantIdsDiffer(readerFontId: FontId, p: PointSize, q: PointSize)
    ensures VariantFontId(readerFontId, p) == VariantFontId(readerFontId, q) <==> p == q
  {
    if VariantHash(readerFontId, p) == VariantHash(readerFontId, q) {
      VariantHashInjective(readerFontId, p, q);
    } else if VariantHash(readerFontId, p) == 0 {
      ReservedIsAlone(readerFontId, p, q);
    } else if VariantHash(readerFontId, q) == 0 {
      ReservedIsAlone(readerFontId, q, p);
    }
  }
}
