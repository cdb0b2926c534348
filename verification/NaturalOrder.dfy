/** The natural order of names (`natural_order` in `src/library/query.rs`): digit runs compare by
    number, text runs by lower-cased text, and ties fall back to the raw strings. Unicode
    lower-casing is a parameter; the order needs one fact about it (`LowersText`). */
module NaturalOrder {
  import opened Basics

  datatype Chunk = Chunk(digits: bool, text: string)

  predicate IsDigit(ch: char) { '0' <= ch <= '9' }

  predicate AllDigits(text: string) { forall ch <- text :: IsDigit(ch) }

  /** Lower-casing a run of non-digits leaves a run that is not empty and starts with none. */
  ghost predicate LowersText(lower: string -> string) {
    forall text: string :: text != [] && (forall ch <- text :: !IsDigit(ch))
      ==> lower(text) != [] && !IsDigit(lower(text)[0])
  }

  /** The length of the longest prefix whose characters are all digits, or all not. */
  function RunLength(text: string, digits: bool): (n: nat)
    ensures n <= |text|
    ensures forall ch <- text[..n] :: IsDigit(ch) == digits
    ensures n < |text| ==> IsDigit(text[n]) != digits
  {
    if text == [] || IsDigit(text[0]) != digits then 0
    else
      var n := 1 + RunLength(text[1..], digits);
      assert text[..n] == [text[0]] + text[1..][..n - 1];
      n
  }

  /** The first chunk of a non-empty text. A digit run is already lower case. */
  function FirstChunk(lower: string -> string, text: string): Chunk
    requires text != []
  {
    var digits := IsDigit(text[0]);
    var run := text[..RunLength(text, digits)];
    Chunk(digits, if digits then run else lower(run))
  }

  function AfterFirstChunk(text: string): (tail: string)
    requires text != []
    ensures |tail| < |text|
  {
    text[RunLength(text, IsDigit(text[0]))..]
  }

  function Chunks(lower: string -> string, text: string): seq<Chunk> {
    if text == [] then []
    else [FirstChunk(lower, text)] + Chunks(lower, AfterFirstChunk(text))
  }

  function TrimZeros(digits: string): (r: string) {
    if digits != [] && digits[0] == '0' then TrimZeros(digits[1..]) else digits
  }

  function CompareChunk(left: Chunk, right: Chunk): Ordering {
    if left.digits && right.digits then
      var l, r := TrimZeros(left.text), TrimZeros(right.text);
      if |l| != |r| then CompareNat(|l|, |r|) else CompareText(l, r)
    else CompareText(left.text, right.text)
  }

  /** Chunk by chunk, a shorter list first; `tie` answers for lists equal throughout. */
  function CompareChunks(left: seq<Chunk>, right: seq<Chunk>, tie: Ordering): Ordering {
    if left == [] && right == [] then tie
    else if left == [] then Less
    else if right == [] then Greater
    else if CompareChunk(left[0], right[0]) != Equal then CompareChunk(left[0], right[0])
    else CompareChunks(left[1..], right[1..], tie)
  }

  function NaturalCompare(lower: string -> string, left: string, right: string): Ordering {
    CompareChunks(Chunks(lower, left), Chunks(lower, right), CompareText(left, right))
  }

  /** The source's loop: two chunk iterators advanced in step until they differ or end. */
  method CompareNaturally(lower: string -> string, left: string, right: string) returns (order: Ordering)
    ensures order == NaturalCompare(lower, left, right)
  {
    var leftRest, rightRest := left, right;
    while true
      invariant NaturalCompare(lower, left, right)
        == CompareChunks(Chunks(lower, leftRest), Chunks(lower, rightRest), CompareText(left, right))
      decreases |leftRest|
    {
      if leftRest == [] && rightRest == [] {
        return CompareText(left, right);
      } else if leftRest == [] {
        return Less;
      } else if rightRest == [] {
        return Greater;
      }
      order := CompareChunk(FirstChunk(lower, leftRest), FirstChunk(lower, rightRest));
      leftRest, rightRest := AfterFirstChunk(leftRest), AfterFirstChunk(rightRest);
      if order != Equal {
        return order;
      }
    }
  }

  // ---- Digit runs compare as numbers ----

  function Value(digits: string): nat
    requires AllDigits(digits)
  {
    if digits == [] then 0 else 10 * Value(digits[..|digits| - 1]) + DigitValue(digits[|digits| - 1])
  }

  function DigitValue(digit: char): (d: nat)
    requires IsDigit(digit)
    ensures d <= 9
  {
    digit as int - '0' as int
  }

  function Pow10(n: nat): (p: nat)
    ensures p > 0
  {
    if n == 0 then 1 else 10 * Pow10(n - 1)
  }

  lemma {:induction false} ValueBounds(digits: string)
    requires AllDigits(digits)
    ensures Value(digits) < Pow10(|digits|)
    ensures digits != [] && digits[0] != '0' ==> Pow10(|digits| - 1) <= Value(digits)
  {
    if digits != [] {
      ValueBounds(digits[..|digits| - 1]);
      assert IsDigit(digits[0]);
    }
  }

  lemma {:induction false} Pow10Grows(m: nat, n: nat)
    requires m <= n
    ensures Pow10(m) <= Pow10(n)
  {
    if m < n {
      Pow10Grows(m, n - 1);
    }
  }

  lemma {:induction false} ValueOfTail(digits: string)
    requires AllDigits(digits) && digits != []
    ensures Value(digits)
      == DigitValue(digits[0]) * Pow10(|digits| - 1) + Value(digits[1..])
  {
    if |digits| > 1 {
      var init, n := digits[..|digits| - 1], |digits| - 1;
      ValueOfTail(init);
      assert digits[1..][..n - 1] == init[1..];
      assert 10 * (DigitValue(digits[0]) * Pow10(n - 1)) == DigitValue(digits[0]) * Pow10(n);
    }
  }

  lemma LeadingDigitDecides(x: nat, y: nat, p: nat, u: nat, v: nat)
    requires u < p && v < p
    ensures x < y ==> x * p + u < y * p + v
    ensures x > y ==> x * p + u > y * p + v
  {
    if x < y {
      assert (x + 1) * p <= y * p;
    } else if x > y {
      assert (y + 1) * p <= x * p;
    }
  }

  lemma {:induction false} SameLengthComparesByValue(a: string, b: string)
    requires AllDigits(a) && AllDigits(b) && |a| == |b|
    ensures CompareText(a, b) == CompareNat(Value(a), Value(b))
  {
    if a != [] {
      var p := Pow10(|a| - 1);
      var x, y := DigitValue(a[0]), DigitValue(b[0]);
      ValueOfTail(a);
      ValueOfTail(b);
      ValueBounds(a[1..]);
      ValueBounds(b[1..]);
      SameLengthComparesByValue(a[1..], b[1..]);
      LeadingDigitDecides(x, y, p, Value(a[1..]), Value(b[1..]));
    }
  }

  lemma {:induction false} TrimKeepsValue(digits: string)
    requires AllDigits(digits)
    ensures var t := TrimZeros(digits);
            AllDigits(t) && Value(t) == Value(digits) && (t != [] ==> t[0] != '0')
  {
    if digits != [] && digits[0] == '0' {
      ValueOfTail(digits);
      TrimKeepsValue(digits[1..]);
    }
  }

  /** Two digit runs compare as the numbers they spell, however many leading zeros they carry. */
  lemma DigitChunksCompareByValue(left: Chunk, right: Chunk)
    requires left.digits && right.digits && AllDigits(left.text) && AllDigits(right.text)
    ensures CompareChunk(left, right) == CompareNat(Value(left.text), Value(right.text))
  {
    var l, r := TrimZeros(left.text), TrimZeros(right.text);
    TrimKeepsValue(left.text);
    TrimKeepsValue(right.text);
    ValueBounds(l);
    ValueBounds(r);
    if |l| < |r| {
      Pow10Grows(|l|, |r| - 1);
    } else if |l| > |r| {
      Pow10Grows(|r|, |l| - 1);
    } else {
      SameLengthComparesByValue(l, r);
    }
  }

  // ---- The order, told on the runs of the two strings ----

  /** `run` is the longest front of `run + rest` that is all digits, or all other characters. */
  predicate IsFirstRun(run: string, rest: string, digits: bool) {
    && run != [] && (forall ch <- run :: ('0' <= ch <= '9') == digits)
    && (rest != [] ==> ('0' <= rest[0] <= '9') != digits)
  }

  lemma {:induction false} RunLengthIs(run: string, rest: string, digits: bool)
    requires (forall ch <- run :: ('0' <= ch <= '9') == digits) && (rest != [] ==> ('0' <= rest[0] <= '9') != digits)
    ensures RunLength(run + rest, digits) == |run|
  {
    if run != [] {
      assert run[0] in run && (run + rest)[1..] == run[1..] + rest;
      assert forall ch <- run[1..] :: ch in run;
      RunLengthIs(run[1..], rest, digits);
    } else {
      assert run + rest == rest;
    }
  }

  lemma RunIsFirstChunk(lower: string -> string, run: string, rest: string, digits: bool)
    requires IsFirstRun(run, rest, digits)
    ensures FirstChunk(lower, run + rest) == Chunk(digits, if digits then run else lower(run))
    ensures AfterFirstChunk(run + rest) == rest
  {
    var text := run + rest;
    RunLengthIs(run, rest, digits);
    assert text[0] == run[0] && run[0] in run;
    assert text[..|run|] == run && text[|run|..] == rest;
  }

  /** Digit runs compare by the numbers they spell, other runs in lower case, and a digit run against
      another as texts. Equal runs are passed over, a name that ends first is less, and names equal
      throughout are told apart by their characters. */
  lemma ComparesRunByRun(lower: string -> string, left: string, leftRest: string, right: string, rightRest: string,
                         leftDigits: bool, rightDigits: bool, tie: Ordering)
    requires IsFirstRun(left, leftRest, leftDigits) && IsFirstRun(right, rightRest, rightDigits)
    ensures var decided := if leftDigits && rightDigits then CompareNat(Value(left), Value(right))
                           else CompareText(if leftDigits then left else lower(left),
                                            if rightDigits then right else lower(right));
            CompareChunks(Chunks(lower, left + leftRest), Chunks(lower, right + rightRest), tie)
              == if decided != Equal then decided
                 else CompareChunks(Chunks(lower, leftRest), Chunks(lower, rightRest), tie)
  {
    RunIsFirstChunk(lower, left, leftRest, leftDigits);
    RunIsFirstChunk(lower, right, rightRest, rightDigits);
    if leftDigits && rightDigits {
      DigitChunksCompareByValue(Chunk(true, left), Chunk(true, right));
    }
  }

  lemma EndingFirstIsLess(lower: string -> string, rest: string, tie: Ordering)
    requires rest != []
    ensures CompareChunks(Chunks(lower, ""), Chunks(lower, rest), tie) == Less
    ensures CompareChunks(Chunks(lower, rest), Chunks(lower, ""), tie) == Greater
    ensures CompareChunks(Chunks(lower, ""), Chunks(lower, ""), tie) == tie
  {
  }

  /** So names of other characters than digits compare in lower case first. */
  lemma WordsIgnoreCase(lower: string -> string, left: string, right: string)
    requires IsFirstRun(left, "", false) && IsFirstRun(right, "", false)
    ensures NaturalCompare(lower, left, right)
      == if lower(left) == lower(right) then CompareText(left, right) else CompareText(lower(left), lower(right))
  {
    assert left + "" == left && right + "" == right;
    ComparesRunByRun(lower, left, "", right, "", false, false, CompareText(left, right));
    TextEqualIsIdentity(lower(left), lower(right));
  }

  // ---- Chunks are totally preordered ----

  predicate WellFormed(chunk: Chunk) {
    && chunk.text != []
    && if chunk.digits then AllDigits(chunk.text) else !IsDigit(chunk.text[0])
  }

  lemma ChunkSwaps(a: Chunk, b: Chunk)
    requires WellFormed(a) && WellFormed(b)
    ensures Swaps(CompareChunk(a, b), CompareChunk(b, a))
  {
    TextSwaps(a.text, b.text);
    if a.digits && b.digits {
      DigitChunksCompareByValue(a, b);
      DigitChunksCompareByValue(b, a);
    }
  }

  lemma ChunkCompareCases(a: Chunk, b: Chunk)
    requires WellFormed(a) && WellFormed(b)
    ensures a.digits && b.digits ==> CompareChunk(a, b) == CompareNat(Value(a.text), Value(b.text))
    ensures !(a.digits && b.digits) ==> CompareChunk(a, b) == CompareText(a.text, b.text)
    ensures a.digits != b.digits
      ==> CompareChunk(a, b) == if a.text[0] < b.text[0] then Less else Greater
    ensures IsDigit(a.text[0]) == a.digits && IsDigit(b.text[0]) == b.digits
  {
    assert a.text[0] in a.text && b.text[0] in b.text;
    if a.digits && b.digits {
      DigitChunksCompareByValue(a, b);
    }
  }

  /** The mixed cases rest on the first character: a text run lies wholly below or wholly above
      every digit run. */
  lemma ChunkComposes(a: Chunk, b: Chunk, c: Chunk)
    requires WellFormed(a) && WellFormed(b) && WellFormed(c)
    ensures Composes(CompareChunk(a, b), CompareChunk(b, c), CompareChunk(a, c))
  {
    TextComposes(a.text, b.text, c.text);
    ChunkCompareCases(a, b);
    ChunkCompareCases(b, c);
    ChunkCompareCases(a, c);
  }

  lemma {:induction false} ChunksWellFormed(lower: string -> string, text: string)
    requires LowersText(lower)
    ensures forall chunk <- Chunks(lower, text) :: WellFormed(chunk)
  {
    if text != [] {
      ChunksWellFormed(lower, AfterFirstChunk(text));
      var run := text[..RunLength(text, IsDigit(text[0]))];
      assert run != [] && run[0] == text[0];
    }
  }

  lemma {:induction false} ListsSwap(a: seq<Chunk>, b: seq<Chunk>, tieAb: Ordering, tieBa: Ordering)
    requires (forall x <- a :: WellFormed(x)) && (forall x <- b :: WellFormed(x))
    requires Swaps(tieAb, tieBa)
    ensures Swaps(CompareChunks(a, b, tieAb), CompareChunks(b, a, tieBa))
  {
    if a != [] && b != [] {
      ChunkSwaps(a[0], b[0]);
      ListsSwap(a[1..], b[1..], tieAb, tieBa);
    }
  }

  lemma {:induction false} ListsCompose(a: seq<Chunk>, b: seq<Chunk>, c: seq<Chunk>,
                                        ab: Ordering, bc: Ordering, ac: Ordering)
    requires forall x <- a + b + c :: WellFormed(x)
    requires Composes(ab, bc, ac)
    ensures Composes(CompareChunks(a, b, ab), CompareChunks(b, c, bc), CompareChunks(a, c, ac))
  {
    if a != [] && b != [] && c != [] {
      assert a[0] in a + b + c && b[0] in a + b + c && c[0] in a + b + c;
      ChunkComposes(a[0], b[0], c[0]);
      assert forall x <- a[1..] + b[1..] + c[1..] :: x in a + b + c;
      ListsCompose(a[1..], b[1..], c[1..], ab, bc, ac);
    }
  }

  // ---- The order is total ----

  /** Swapping the arguments reverses the answer, and only identical strings compare equal. */
  lemma NaturalOrderIsAntisymmetric(lower: string -> string, a: string, b: string)
    requires LowersText(lower)
    ensures Swaps(NaturalCompare(lower, a, b), NaturalCompare(lower, b, a))
    ensures NaturalCompare(lower, a, b) == Equal <==> a == b
  {
    ChunksWellFormed(lower, a);
    ChunksWellFormed(lower, b);
    TextSwaps(a, b);
    ListsSwap(Chunks(lower, a), Chunks(lower, b), CompareText(a, b), CompareText(b, a));
    TextEqualIsIdentity(a, b);
    EqualOnlyByTie(Chunks(lower, a), Chunks(lower, b), CompareText(a, b));
    if a == b {
      SelfCompareIsTie(Chunks(lower, a), CompareText(a, b));
    }
  }

  lemma {:induction false} EqualOnlyByTie(a: seq<Chunk>, b: seq<Chunk>, tie: Ordering)
    ensures CompareChunks(a, b, tie) == Equal ==> tie == Equal
  {
    if a != [] && b != [] {
      EqualOnlyByTie(a[1..], b[1..], tie);
    }
  }

  lemma {:induction false} SelfCompareIsTie(a: seq<Chunk>, tie: Ordering)
    ensures CompareChunks(a, a, tie) == tie
  {
    if a != [] {
      TextEqualIsIdentity(a[0].text, a[0].text);
      TextEqualIsIdentity(TrimZeros(a[0].text), TrimZeros(a[0].text));
      SelfCompareIsTie(a[1..], tie);
    }
  }

  /** Answers compose, across mixed digit and text runs, leading zeros and letter case. */
  lemma NaturalOrderIsTransitive(lower: string -> string, a: string, b: string, c: string)
    requires LowersText(lower)
    ensures Composes(NaturalCompare(lower, a, b), NaturalCompare(lower, b, c), NaturalCompare(lower, a, c))
  {
    ChunksWellFormed(lower, a);
    ChunksWellFormed(lower, b);
    ChunksWellFormed(lower, c);
    TextComposes(a, b, c);
    ListsCompose(Chunks(lower, a), Chunks(lower, b), Chunks(lower, c),
                 CompareText(a, b), CompareText(b, c), CompareText(a, c));
  }
}
