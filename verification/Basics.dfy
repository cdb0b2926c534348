/** Shared values: options, results and the order of strings. */
module Basics {
  datatype Option<+T> = None | Some(value: T)

  datatype Result<+T, +E> = Ok(value: T) | Err(error: E)

  /** `Iterator::position`. */
  function Position<T(!new)>(items: seq<T>, test: T -> bool): (p: Option<nat>)
    ensures p.Some? ==> p.value < |items| && test(items[p.value])
    ensures p.Some? ==> forall i | 0 <= i < p.value :: !test(items[i])
    ensures p.None? ==> forall i | 0 <= i < |items| :: !test(items[i])
  {
    if items == [] then None
    else if test(items[0]) then Some(0)
    else
      match Position(items[1..], test)
      case Some(p) => Some(p + 1)
      case None => assert forall i | 0 < i < |items| :: items[i] == items[1..][i - 1]; None
  }

  /** Unicode White_Space, what `trim` strips. */
  predicate IsWhitespace(ch: char) {
    || '\U{9}' <= ch <= '\U{D}'
    || ch in {' ', '\U{85}', '\U{A0}', '\U{1680}'}
    || '\U{2000}' <= ch <= '\U{200A}'
    || ch in {'\U{2028}', '\U{2029}', '\U{202F}', '\U{205F}', '\U{3000}'}
  }

  /** What `text.trim().is_empty()` asks. */
  predicate IsBlank(text: string) { forall ch <- text :: IsWhitespace(ch) }

  function LowerAscii(ch: char): char { if 'A' <= ch <= 'Z' then (ch as int + 32) as char else ch }

  predicate IsHexDigit(ch: char) { '0' <= ch <= '9' || 'a' <= ch <= 'f' || 'A' <= ch <= 'F' }

  /** `valid_opaque_id`: what the app's own random ids look like. */
  predicate IsOpaqueId(text: string) { 16 <= |text| <= 64 && forall ch <- text :: IsHexDigit(ch) }

  const UPPER := "ABCDEFGHIJKLMNOPQRSTUVWXYZ"
  const LOWER := "abcdefghijklmnopqrstuvwxyz"

  /** The letters of the English alphabet lose their case, and nothing else changes. */
  lemma LowerAsciiByLetter(ch: char)
    ensures forall i | 0 <= i < 26 :: LowerAscii(UPPER[i]) == LOWER[i] && LowerAscii(LOWER[i]) == LOWER[i]
    ensures ch !in UPPER ==> LowerAscii(ch) == ch
  {
    assert forall i | 0 <= i < 26 :: UPPER[i] as int == 'A' as int + i && LOWER[i] as int == 'a' as int + i;
    if 'A' <= ch <= 'Z' {
      assert ch == UPPER[ch as int - 'A' as int];
    }
  }

  lemma OpaqueIdByDigit(text: string)
    ensures IsOpaqueId(text) <==> 16 <= |text| <= 64 && forall ch <- text :: ch in "0123456789abcdefABCDEF"
  {
    forall ch: char
      ensures IsHexDigit(ch) <==> ch in "0123456789abcdefABCDEF"
    {
      HexDigitByList(ch);
    }
  }

  lemma HexDigitByList(ch: char)
    ensures IsHexDigit(ch) <==> ch in "0123456789abcdefABCDEF"
  {
    var hex := "0123456789abcdefABCDEF";
    assert forall i | 0 <= i < 10 :: hex[i] as int == '0' as int + i;
    assert forall i | 10 <= i < 16 :: hex[i] as int == 'a' as int + i - 10;
    assert forall i | 16 <= i < 22 :: hex[i] as int == 'A' as int + i - 16;
    if '0' <= ch <= '9' {
      assert ch == hex[ch as int - '0' as int];
    } else if 'a' <= ch <= 'f' {
      assert ch == hex[10 + ch as int - 'a' as int];
    } else if 'A' <= ch <= 'F' {
      assert ch == hex[16 + ch as int - 'A' as int];
    }
  }

  function TrimStart(text: string): string {
    if text != [] && IsWhitespace(text[0]) then TrimStart(text[1..]) else text
  }

  function TrimEnd(text: string): string {
    if text != [] && IsWhitespace(text[|text| - 1]) then TrimEnd(text[..|text| - 1]) else text
  }

  function Trim(text: string): string { TrimEnd(TrimStart(text)) }

  /** Trimming takes white space off both ends, all of it and nothing else. */
  lemma TrimExactly(text: string) returns (front: string, back: string)
    ensures text == front + Trim(text) + back && IsBlank(front) && IsBlank(back)
    ensures Trim(text) != [] ==> !IsWhitespace(Trim(text)[0]) && !IsWhitespace(Trim(text)[|Trim(text)| - 1])
  {
    front := TrimStartExactly(text);
    back := TrimEndExactly(TrimStart(text));
    assert Trim(text) != [] ==> Trim(text)[0] == TrimStart(text)[0];
  }

  lemma {:induction false} TrimStartExactly(text: string) returns (front: string)
    ensures text == front + TrimStart(text) && IsBlank(front)
    ensures TrimStart(text) != [] ==> !IsWhitespace(TrimStart(text)[0])
  {
    front := [];
    if text != [] && IsWhitespace(text[0]) {
      var rest := TrimStartExactly(text[1..]);
      front := [text[0]] + rest;
    }
  }

  lemma {:induction false} TrimEndExactly(text: string) returns (back: string)
    ensures text == TrimEnd(text) + back && IsBlank(back)
    ensures TrimEnd(text) != [] ==> !IsWhitespace(TrimEnd(text)[|TrimEnd(text)| - 1])
  {
    back := [];
    if text != [] && IsWhitespace(text[|text| - 1]) {
      var rest := TrimEndExactly(text[..|text| - 1]);
      back := rest + [text[|text| - 1]];
    }
  }

  /** `non_empty`: what is left of a text after trimming, if anything. */
  function NonEmpty(value: Option<string>): Option<string> {
    if value.Some? && Trim(value.value) != [] then Some(Trim(value.value)) else None
  }

  datatype Ordering = Less | Equal | Greater {
    function Reverse(): Ordering {
      match this
      case Less => Greater
      case Equal => Equal
      case Greater => Less
    }
  }

  function CompareNat(a: nat, b: nat): Ordering {
    if a < b then Less else if a == b then Equal else Greater
  }

  /** Strings compare by code point, first difference first, a prefix before what it starts. */
  function CompareText(a: string, b: string): Ordering {
    if a == [] then (if b == [] then Equal else Less)
    else if b == [] then Greater
    else if a[0] < b[0] then Less
    else if a[0] > b[0] then Greater
    else CompareText(a[1..], b[1..])
  }

  /** What makes a three-way comparison a total preorder: swapping the arguments reverses the
      answer (`Swaps`), and answers compose (`Composes`). */
  predicate Swaps(ab: Ordering, ba: Ordering) { ba == ab.Reverse() }

  predicate Composes(ab: Ordering, bc: Ordering, ac: Ordering) {
    && (ab == Equal ==> ac == bc)
    && (bc == Equal ==> ac == ab)
    && (ab == bc ==> ac == ab)
  }

  /** One text is before another where their first difference is a smaller character, or where it
      ends and the other goes on. */
  lemma {:induction false} TextLessExactly(a: string, b: string)
    ensures CompareText(a, b) == Less <==> exists k | 0 <= k <= |a| && k <= |b| :: DiffersBelow(a, b, k)
  {
    if a != [] && b != [] && a[0] == b[0] {
      TextLessExactly(a[1..], b[1..]);
      if k :| 0 <= k <= |a[1..]| && k <= |b[1..]| && DiffersBelow(a[1..], b[1..], k) {
        assert forall i | 0 < i < k + 1 :: a[i] == a[1..][i - 1] && b[i] == b[1..][i - 1];
        assert DiffersBelow(a, b, k + 1);
      }
      if k :| 0 <= k <= |a| && k <= |b| && DiffersBelow(a, b, k) {
        assert DiffersBelow(a[1..], b[1..], k - 1);
      }
    } else if b != [] && (a == [] || a[0] < b[0]) {
      assert DiffersBelow(a, b, 0);
    }
  }

  predicate DiffersBelow(a: string, b: string, k: nat)
    requires k <= |a| && k <= |b|
  {
    (forall i | 0 <= i < k :: a[i] == b[i]) && k < |b| && (k < |a| ==> a[k] < b[k])
  }

  lemma {:induction false} TextSwaps(a: string, b: string)
    ensures Swaps(CompareText(a, b), CompareText(b, a))
  {
    if a != [] && b != [] && a[0] == b[0] {
      TextSwaps(a[1..], b[1..]);
    }
  }

  lemma {:induction false} TextComposes(a: string, b: string, c: string)
    ensures Composes(CompareText(a, b), CompareText(b, c), CompareText(a, c))
  {
    if a != [] && b != [] && c != [] && a[0] == b[0] == c[0] {
      TextComposes(a[1..], b[1..], c[1..]);
    }
  }

  lemma {:induction false} TextEqualIsIdentity(a: string, b: string)
    ensures CompareText(a, b) == Equal <==> a == b
  {
    if a != [] && b != [] {
      if a[0] == b[0] {
        TextEqualIsIdentity(a[1..], b[1..]);
        assert a == [a[0]] + a[1..] && b == [b[0]] + b[1..];
      }
    }
  }
}
