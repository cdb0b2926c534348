/** The random sort (`shuffle_key` in `src/library/query.rs`): a 64-bit mix of the row id and a
    seed. A word is the unsigned value of the 64 bits; exclusive or and shifts are defined on
    binary digits, and multiplication wraps at 2^64. */
module Shuffle {
  const WORDS := 0x1_0000_0000_0000_0000
  type Word = n: nat | n < WORDS

  function Xor(a: nat, b: nat): nat {
    if a == 0 && b == 0 then 0 else 2 * Xor(a / 2, b / 2) + (if a % 2 == b % 2 then 0 else 1)
  }

  function Shr(a: nat, k: nat): nat {
    if k == 0 then a else Shr(a / 2, k - 1)
  }

  function WrappingMul(a: nat, b: nat): Word { a * b % WORDS }

  const SEED_MULTIPLIER: Word := 0x9E37_79B9_7F4A_7C15
  const FIRST_MULTIPLIER: Word := 0xBF58_476D_1CE4_E5B9
  const SECOND_MULTIPLIER: Word := 0x94D0_49BB_1331_11EB

  function Fold(value: nat, k: nat): nat { Xor(value, Shr(value, k)) }

  function SplitMix64Finalize(value: Word): nat {
    Fold(WrappingMul(Fold(WrappingMul(Fold(value, 30), FIRST_MULTIPLIER), 27), SECOND_MULTIPLIER), 31)
  }

  function ShuffleKey(id: Word, seed: Word): (key: Word)
  {
    XorFits(id, WrappingMul(seed, SEED_MULTIPLIER));
    var combined := Xor(id, WrappingMul(seed, SEED_MULTIPLIER));
    FinalizeFits(combined);
    SplitMix64Finalize(combined)
  }

  // ---- Binary digits ----

  function Pow2(n: nat): nat { if n == 0 then 1 else 2 * Pow2(n - 1) }

  lemma {:induction false} XorBound(a: nat, b: nat, n: nat)
    requires a < Pow2(n) && b < Pow2(n)
    ensures Xor(a, b) < Pow2(n)
  {
    if n > 0 {
      XorBound(a / 2, b / 2, n - 1);
    }
  }

  lemma {:induction false} Pow2Doubles(m: nat, n: nat)
    ensures Pow2(m + n) == Pow2(m) * Pow2(n)
  {
    if m > 0 {
      Pow2Doubles(m - 1, n);
    }
  }

  lemma WordsIsPow2()
    ensures Pow2(64) == WORDS
  {
    assert Pow2(8) == 256;
    Pow2Doubles(8, 8);
    Pow2Doubles(16, 16);
    Pow2Doubles(32, 32);
  }

  lemma XorFits(a: Word, b: Word)
    ensures Xor(a, b) < WORDS
  {
    WordsIsPow2();
    XorBound(a, b, 64);
  }

  lemma {:induction false} XorIsAssociative(a: nat, b: nat, c: nat)
    ensures Xor(Xor(a, b), c) == Xor(a, Xor(b, c))
    decreases a + b + c
  {
    if a + b + c > 0 {
      XorIsAssociative(a / 2, b / 2, c / 2);
      XorDigits(a, b);
      XorDigits(b, c);
      XorDigits(Xor(a, b), c);
      XorDigits(a, Xor(b, c));
    }
  }

  lemma XorDigits(a: nat, b: nat)
    ensures Xor(a, b) / 2 == Xor(a / 2, b / 2)
    ensures Xor(a, b) % 2 == if a % 2 == b % 2 then 0 else 1
  {
  }

  lemma {:induction false} XorCancels(a: nat, b: nat)
    ensures Xor(Xor(a, b), b) == a
    decreases a + b
  {
    if a + b > 0 {
      XorDigits(a, b);
      XorCancels(a / 2, b / 2);
      XorDigits(Xor(a, b), b);
    }
  }

  lemma {:induction false} ShrOfXor(a: nat, b: nat, k: nat)
    ensures Shr(Xor(a, b), k) == Xor(Shr(a, k), Shr(b, k))
  {
    if k > 0 {
      XorDigits(a, b);
      ShrOfXor(a / 2, b / 2, k - 1);
    }
  }

  lemma {:induction false} ShrTwice(a: nat, j: nat, k: nat)
    ensures Shr(Shr(a, j), k) == Shr(a, j + k)
  {
    if j > 0 {
      ShrTwice(a / 2, j - 1, k);
    }
  }

  lemma {:induction false} ShrBound(a: nat, k: nat)
    ensures Shr(a, k) <= a && (a < Pow2(k) ==> Shr(a, k) == 0)
  {
    if k > 0 {
      ShrBound(a / 2, k - 1);
    }
  }

  lemma ShrVanishes(a: Word, k: nat)
    requires k >= 64
    ensures Shr(a, k) == 0
  {
    WordsIsPow2();
    ShrTwice(a, 64, k - 64);
    ShrBound(a, 64);
    ShrBound(0, k - 64);
  }

  // ---- Every stage of the finalizer can be undone ----

  function Unfold(value: nat, k: nat): nat { Xor(Xor(value, Shr(value, k)), Shr(value, 2 * k)) }

  lemma {:induction false} XorZero(a: nat)
    ensures Xor(a, 0) == a
  {
    if a > 0 {
      XorZero(a / 2);
    }
  }

  lemma ShrOfFold(value: Word, k: nat)
    ensures Shr(Fold(value, k), k) == Xor(Shr(value, k), Shr(value, 2 * k))
  {
    ShrOfXor(value, Shr(value, k), k);
    ShrTwice(value, k, k);
  }

  lemma ShrTwiceOfFold(value: Word, k: nat)
    requires 3 * k >= 64
    ensures Shr(Fold(value, k), 2 * k) == Shr(value, 2 * k)
  {
    ShrOfXor(value, Shr(value, k), 2 * k);
    ShrTwice(value, k, 2 * k);
    ShrVanishes(value, 3 * k);
    XorZero(Shr(value, 2 * k));
  }

  lemma XorBackTwice(a: nat, b: nat, c: nat)
    ensures Xor(Xor(Xor(a, b), Xor(b, c)), c) == a
  {
    XorIsAssociative(Xor(a, b), b, c);
    XorCancels(a, b);
    XorCancels(a, c);
  }

  lemma FoldInverts(value: Word, k: nat)
    requires 3 * k >= 64
    ensures Fold(value, k) < WORDS && Unfold(Fold(value, k), k) == value
  {
    ShrBound(value, k);
    XorFits(value, Shr(value, k));
    ShrOfFold(value, k);
    ShrTwiceOfFold(value, k);
    XorBackTwice(value, Shr(value, k), Shr(value, 2 * k));
  }

  /** The odd multipliers have inverses modulo 2^64. */
  const FIRST_INVERSE: Word := 0x96DE_1B17_3F11_9089
  const SECOND_INVERSE: Word := 0x3196_42B2_D24D_8EC3
  const SEED_INVERSE: Word := 0xF1DE_83E1_9937_733D

  lemma MultiplierInverts(value: Word, multiplier: nat, inverse: nat, quotient: nat)
    requires multiplier * inverse == quotient * WORDS + 1
    ensures WrappingMul(WrappingMul(value, multiplier), inverse) == value
  {
    var product := value * multiplier;
    var q := product / WORDS;
    var r := product % WORDS;
    calc {
      r * inverse;
      (product - q * WORDS) * inverse;
      value * (multiplier * inverse) - q * inverse * WORDS;
      value + (value * quotient - q * inverse) * WORDS;
    }
    RemainderIs(r * inverse, value * quotient - q * inverse, value);
  }

  lemma RemainderIs(n: int, k: int, r: Word)
    requires n == r + k * WORDS
    ensures n % WORDS == r
  {
  }

  lemma MultipliersInvert(value: Word)
    ensures WrappingMul(WrappingMul(value, FIRST_MULTIPLIER), FIRST_INVERSE) == value
    ensures WrappingMul(WrappingMul(value, SECOND_MULTIPLIER), SECOND_INVERSE) == value
    ensures WrappingMul(WrappingMul(value, SEED_MULTIPLIER), SEED_INVERSE) == value
  {
    MultiplierInverts(value, SEED_MULTIPLIER, SEED_INVERSE, SEED_MULTIPLIER * SEED_INVERSE / WORDS);
    MultiplierInverts(value, FIRST_MULTIPLIER, FIRST_INVERSE, FIRST_MULTIPLIER * FIRST_INVERSE / WORDS);
    MultiplierInverts(value, SECOND_MULTIPLIER, SECOND_INVERSE, SECOND_MULTIPLIER * SECOND_INVERSE / WORDS);
  }

  function UndoFinalize(value: nat): nat {
    Unfold(WrappingMul(Unfold(WrappingMul(Unfold(value, 31), SECOND_INVERSE), 27), FIRST_INVERSE), 30)
  }

  function IdOfKey(key: nat, seed: Word): nat {
    Xor(UndoFinalize(key), WrappingMul(seed, SEED_MULTIPLIER))
  }

  lemma FinalizeFits(value: Word)
    ensures SplitMix64Finalize(value) < WORDS && UndoFinalize(SplitMix64Finalize(value)) == value
  {
    FoldInverts(value, 30);
    var first := WrappingMul(Fold(value, 30), FIRST_MULTIPLIER);
    MultipliersInvert(Fold(value, 30));
    FoldInverts(first, 27);
    var second := WrappingMul(Fold(first, 27), SECOND_MULTIPLIER);
    MultipliersInvert(Fold(first, 27));
    FoldInverts(second, 31);
  }

  /** Under a known seed the key gives the id back. */
  lemma KeyDeterminesId(id: Word, seed: Word)
    ensures IdOfKey(ShuffleKey(id, seed), seed) == id
  {
    var mask := WrappingMul(seed, SEED_MULTIPLIER);
    XorFits(id, mask);
    FinalizeFits(Xor(id, mask));
    XorCancels(id, mask);
  }

  lemma DistinctIdsNeverTie(a: Word, b: Word, seed: Word)
    requires a != b
    ensures ShuffleKey(a, seed) != ShuffleKey(b, seed)
  {
    KeyDeterminesId(a, seed);
    KeyDeterminesId(b, seed);
  }

  /** And the key of a known id gives the seed back, so no two seeds give a row the same key. */
  lemma KeyDeterminesSeed(id: Word, seed: Word)
    ensures SeedOfKey(ShuffleKey(id, seed), id) == seed
  {
    var mask := WrappingMul(seed, SEED_MULTIPLIER);
    XorFits(id, mask);
    FinalizeFits(Xor(id, mask));
    XorCommutes(id, mask);
    XorCancels(mask, id);
    MultipliersInvert(seed);
  }

  function SeedOfKey(key: nat, id: Word): Word { WrappingMul(Xor(UndoFinalize(key), id), SEED_INVERSE) }

  lemma SeedsNeverTie(id: Word, a: Word, b: Word)
    requires a != b
    ensures ShuffleKey(id, a) != ShuffleKey(id, b)
  {
    KeyDeterminesSeed(id, a);
    KeyDeterminesSeed(id, b);
  }

  lemma {:induction false} XorCommutes(a: nat, b: nat)
    ensures Xor(a, b) == Xor(b, a)
    decreases a + b
  {
    if a + b > 0 {
      XorCommutes(a / 2, b / 2);
    }
  }

  // ---- The sort: ORDER BY mediaflick_shuffle(id, seed), id ----

  /** The `i64` a word stands for. */
  function Signed(word: Word): int { if word < WORDS / 2 then word else word - WORDS }

  predicate Before(a: Word, b: Word, seed: Word) {
    var keyA, keyB := Signed(ShuffleKey(a, seed)), Signed(ShuffleKey(b, seed));
    keyA < keyB || (keyA == keyB && Signed(a) < Signed(b))
  }

  ghost predicate Sorted<T(!new)>(before: (T, T) -> bool, rows: seq<T>) {
    forall i, j | 0 <= i < j < |rows| :: before(rows[i], rows[j])
  }

  /** The id tiebreak is never consulted, and any two rows are ordered one way. */
  lemma KeysOrderRows(a: Word, b: Word, seed: Word)
    requires a != b
    ensures Before(a, b, seed) <==> Signed(ShuffleKey(a, seed)) < Signed(ShuffleKey(b, seed))
    ensures Before(a, b, seed) <==> !Before(b, a, seed)
  {
    DistinctIdsNeverTie(a, b, seed);
  }

  /** One seed gives one order: two sorted listings of the same rows are the same list, so the
      pages cut from one query neither repeat nor miss a row of the next. */
  lemma OneSeedOneOrder(left: seq<Word>, right: seq<Word>, seed: Word)
    requires Sorted((a, b) => Before(a, b, seed), left) && Sorted((a, b) => Before(a, b, seed), right)
    requires forall row :: row in left <==> row in right
    ensures left == right
  {
    var before := (a: Word, b: Word) => Before(a, b, seed);
    forall a, b | before(a, b) ensures !before(b, a) {
      if a != b {
        KeysOrderRows(a, b, seed);
      }
    }
    StrictOrderIsUnique(before, left, right);
  }

  lemma {:induction false} StrictOrderIsUnique<T(!new)>(before: (T, T) -> bool, left: seq<T>, right: seq<T>)
    requires forall a, b :: before(a, b) ==> !before(b, a)
    requires Sorted(before, left) && Sorted(before, right)
    requires forall row :: row in left <==> row in right
    ensures left == right
  {
    assert |left| > 0 ==> left[0] in left;
    assert |right| > 0 ==> right[0] in right;
    if left != [] {
      HeadIsFirst(before, left, right[0]);
      HeadIsFirst(before, right, left[0]);
      assert left[0] == right[0];
      assert left[0] !in left[1..] && right[0] !in right[1..];
      assert forall row :: row in left <==> row == left[0] || row in left[1..];
      assert forall row :: row in right <==> row == left[0] || row in right[1..];
      StrictOrderIsUnique(before, left[1..], right[1..]);
    }
  }

  lemma HeadIsFirst<T(!new)>(before: (T, T) -> bool, rows: seq<T>, row: T)
    requires Sorted(before, rows) && row in rows
    ensures row == rows[0] || before(rows[0], row)
  {
  }
}
