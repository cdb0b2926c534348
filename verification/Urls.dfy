/** Query strings (`src/app/urls.rs`) and the token a media URL must not carry
    (`src/playback/model.rs`), on the bytes of their texts. */
module Urls {
  import opened Basics

  type Byte = b: int | 0 <= b < 256
  type Bytes = seq<Byte>

  /** `api_key`, the first of the names Jellyfin takes a token under. */
  const API_KEY: Bytes := [0x61, 0x70, 0x69, 0x5F, 0x6B, 0x65, 0x79]

  const AMPERSAND: Byte := 0x26
  const EQUALS: Byte := 0x3D
  const HASH: Byte := 0x23
  const PERCENT: Byte := 0x25
  const PLUS: Byte := 0x2B
  const QUESTION: Byte := 0x3F
  const SPACE: Byte := 0x20

  /** What is left open of UTF-8: which byte strings are texts, how any other is made one, and
      which texts are blank. */
  datatype Encoding = Encoding(isText: Bytes -> bool, lossy: Bytes -> Bytes, isBlank: Bytes -> bool)

  /** `from_utf8_lossy` leaves texts alone. */
  ghost predicate KeepsTexts(utf8: Encoding) {
    forall bytes: Bytes :: utf8.isText(bytes) ==> utf8.lossy(bytes) == bytes
  }

  // ---- Encoding ----

  /** The unreserved set of section 2.3 of RFC 3986. */
  predicate IsUnreserved(byte: Byte) {
    || 0x41 <= byte <= 0x5A || 0x61 <= byte <= 0x7A || 0x30 <= byte <= 0x39
    || byte in {0x2D, 0x5F, 0x2E, 0x7E}
  }

  function HexDigit(n: nat): Byte
    requires n < 16
  {
    if n < 10 then 0x30 + n else 0x41 + n - 10
  }

  function EncodedByte(byte: Byte): Bytes {
    if IsUnreserved(byte) then [byte] else [PERCENT, HexDigit(byte / 16), HexDigit(byte % 16)]
  }

  function Encoded(value: Bytes): Bytes {
    if value == [] then [] else EncodedByte(value[0]) + Encoded(value[1..])
  }

  lemma EncodedStep(value: Bytes, i: nat, out: Bytes)
    requires i < |value|
    ensures out + Encoded(value[i..]) == (out + EncodedByte(value[i])) + Encoded(value[i + 1..])
  {
    assert value[i..][1..] == value[i + 1..];
  }

  method EncodeWith(value: Bytes) returns (out: Bytes)
    ensures out == Encoded(value)
  {
    out := [];
    for i := 0 to |value|
      invariant out + Encoded(value[i..]) == Encoded(value)
    {
      EncodedStep(value, i, out);
      if IsUnreserved(value[i]) {
        out := out + [value[i]];
      } else {
        out := out + [PERCENT, HexDigit(value[i] / 16), HexDigit(value[i] % 16)];
      }
    }
    assert value[|value|..] == [] && out + [] == out;
  }

  const HEX := "0123456789ABCDEF"

  /** Letters, digits and four marks. */
  predicate StaysAsItIs(byte: Byte) {
    byte as char in UPPER || byte as char in LOWER || byte as char in "0123456789" || byte as char in "-_.~"
  }

  lemma UnreservedStays(byte: Byte)
    ensures IsUnreserved(byte) <==> StaysAsItIs(byte)
  {
    assert forall i | 0 <= i < 26 :: UPPER[i] as int == 0x41 + i && LOWER[i] as int == 0x61 + i;
    assert forall i | 0 <= i < 10 :: "0123456789"[i] as int == 0x30 + i;
    if 0x41 <= byte <= 0x5A {
      assert UPPER[byte - 0x41] == byte as char;
    } else if 0x61 <= byte <= 0x7A {
      assert LOWER[byte - 0x61] == byte as char;
    } else if 0x30 <= byte <= 0x39 {
      assert "0123456789"[byte - 0x30] == byte as char;
    }
  }

  /** Everything else is escaped, in capitals. */
  lemma EscapedExactly(byte: Byte)
    ensures EncodedByte(byte)
      == if StaysAsItIs(byte) then [byte] else [0x25, HEX[byte / 16] as int, HEX[byte % 16] as int]
  {
    UnreservedStays(byte);
    HexDigitOf(byte / 16);
    HexDigitOf(byte % 16);
  }

  lemma HexDigitOf(n: nat)
    requires n < 16
    ensures HexDigit(n) == HEX[n] as int
  {
    assert forall i | 0 <= i < 10 :: HEX[i] as int == 0x30 + i;
    assert forall i | 10 <= i < 16 :: HEX[i] as int == 0x41 + i - 10;
  }

  // ---- Decoding ----

  function HexValue(byte: Byte): (r: Option<nat>)
    ensures r.Some? ==> r.value < 16
  {
    if 0x30 <= byte <= 0x39 then Some(byte - 0x30)
    else if 0x61 <= byte <= 0x66 then Some(byte - 0x61 + 10)
    else if 0x41 <= byte <= 0x46 then Some(byte - 0x41 + 10)
    else None
  }

  /** An escape needs both digits; a percent sign without them stands for itself. */
  predicate StartsWithEscape(input: Bytes) {
    && |input| > 2 && input[0] == PERCENT
    && HexValue(input[1]).Some? && HexValue(input[2]).Some?
  }

  function EscapedByte(input: Bytes): Byte
    requires StartsWithEscape(input)
  {
    HexValue(input[1]).value * 16 + HexValue(input[2]).value
  }

  function Decoded(input: Bytes): Bytes {
    if input == [] then []
    else if StartsWithEscape(input) then [EscapedByte(input)] + Decoded(input[3..])
    else [if input[0] == PLUS then SPACE else input[0]] + Decoded(input[1..])
  }

  /** An escape in either case is one byte. */
  lemma EscapeDecodes(rest: Bytes, high: nat, low: nat, h: Byte, l: Byte)
    requires high < 16 && low < 16
    requires h == HEX[high] as int || h == LowerAscii(HEX[high]) as int
    requires l == HEX[low] as int || l == LowerAscii(HEX[low]) as int
    ensures Decoded([PERCENT, h, l] + rest) == [16 * high + low] + Decoded(rest)
  {
    HexDigitOf(high);
    HexDigitOf(low);
    var text: Bytes := [PERCENT, h, l] + rest;
    assert text[3..] == rest && HexValue(h) == Some(high) && HexValue(l) == Some(low);
  }

  /** A plus sign is a space, and a percent sign without two digits behind it stands for itself. */
  lemma OthersDecode(input: Bytes)
    requires input != []
    requires !(|input| > 2 && input[0] == PERCENT && IsHexDigit(input[1] as char) && IsHexDigit(input[2] as char))
    ensures Decoded(input) == [if input[0] == 0x2B then 0x20 else input[0]] + Decoded(input[1..])
  {
    if |input| > 2 {
      HexValueExists(input[1]);
      HexValueExists(input[2]);
    }
  }

  lemma HexValueExists(byte: Byte)
    ensures HexValue(byte).Some? <==> IsHexDigit(byte as char)
  {
  }

  lemma DecodedStep(input: Bytes, i: nat, out: Bytes)
    requires i < |input|
    ensures var rest := input[i..];
            out + Decoded(rest) == if StartsWithEscape(rest) then (out + [EscapedByte(rest)]) + Decoded(input[i + 3..])
                                   else (out + [if input[i] == PLUS then SPACE else input[i]]) + Decoded(input[i + 1..])
  {
    var rest := input[i..];
    assert rest[1..] == input[i + 1..];
    assert |rest| > 2 ==> rest[3..] == input[i + 3..];
  }

  method PercentDecode(input: Bytes, utf8: Encoding) returns (text: Bytes)
    ensures text == utf8.lossy(Decoded(input))
  {
    var out: Bytes := [];
    var index := 0;
    while index < |input|
      invariant index <= |input| && out + Decoded(input[index..]) == Decoded(input)
    {
      DecodedStep(input, index, out);
      if input[index] == PERCENT && index + 2 < |input| {
        var high, low := HexValue(input[index + 1]), HexValue(input[index + 2]);
        if high.Some? && low.Some? {
          out := out + [high.value * 16 + low.value];
          index := index + 3;
          continue;
        }
      }
      out := out + [if input[index] == PLUS then SPACE else input[index]];
      index := index + 1;
    }
    assert input[|input|..] == [] && out + [] == out;
    text := utf8.lossy(out);
  }

  lemma {:induction false} DecodeInvertsEncode(value: Bytes)
    ensures Decoded(Encoded(value)) == value
  {
    if value != [] {
      DecodeInvertsEncode(value[1..]);
      var head, rest := EncodedByte(value[0]), Encoded(value[1..]);
      assert (head + rest)[|head|..] == rest;
    }
  }

  /** Encoded text holds nothing a query string gives a meaning to. */
  lemma {:induction false} EncodedIsPlain(value: Bytes)
    ensures forall byte <- Encoded(value) :: IsUnreserved(byte) || byte == PERCENT
  {
    if value != [] {
      EncodedIsPlain(value[1..]);
    }
  }

  // ---- Splitting and joining ----

  function Split(text: Bytes, separator: Byte): (parts: seq<Bytes>)
    ensures parts != []
  {
    if text == [] then [[]]
    else
      var rest := Split(text[1..], separator);
      if text[0] == separator then [[]] + rest else [[text[0]] + rest[0]] + rest[1..]
  }

  function SplitOnce(text: Bytes, separator: Byte): (r: Option<(Bytes, Bytes)>)
    ensures r.None? <==> separator !in text
    ensures r.Some? ==> separator !in r.value.0 && text == r.value.0 + [separator] + r.value.1
  {
    if text == [] then None
    else if text[0] == separator then Some(([], text[1..]))
    else
      match SplitOnce(text[1..], separator)
      case None => None
      case Some(pair) => Some(([text[0]] + pair.0, pair.1))
  }

  function Join(parts: seq<Bytes>, separator: Byte): Bytes {
    if parts == [] then [] else if |parts| == 1 then parts[0] else parts[0] + [separator] + Join(parts[1..], separator)
  }

  lemma {:induction false} SplitOnceOf(head: Bytes, tail: Bytes, separator: Byte)
    requires separator !in head
    ensures SplitOnce(head + [separator] + tail, separator) == Some((head, tail))
  {
    var text := head + [separator] + tail;
    if head != [] {
      SplitOnceOf(head[1..], tail, separator);
      assert [head[0]] + head[1..] == head;
      assert text[1..] == head[1..] + [separator] + tail;
    }
  }

  lemma {:induction false} SplitAppend(head: Bytes, tail: Bytes, separator: Byte)
    requires separator !in head
    ensures Split(head, separator) == [head]
    ensures Split(head + [separator] + tail, separator) == [head] + Split(tail, separator)
  {
    var text := head + [separator] + tail;
    if head == [] {
      assert text[1..] == tail;
    } else {
      SplitAppend(head[1..], tail, separator);
      assert [head[0]] + head[1..] == head;
      assert text[1..] == head[1..] + [separator] + tail;
    }
  }

  ghost predicate Separable(parts: seq<Bytes>, separator: Byte) { forall part <- parts :: separator !in part }

  lemma {:induction false} SplitInvertsJoin(parts: seq<Bytes>, separator: Byte)
    requires parts != [] && Separable(parts, separator)
    ensures Split(Join(parts, separator), separator) == parts
  {
    if |parts| > 1 {
      SplitInvertsJoin(parts[1..], separator);
      SplitAppend(parts[0], Join(parts[1..], separator), separator);
    } else {
      SplitAppend(parts[0], [], separator);
    }
  }

  lemma {:induction false} SplitIsSeparable(text: Bytes, separator: Byte)
    ensures Separable(Split(text, separator), separator)
    ensures forall part <- Split(text, separator), byte <- part :: byte in text
  {
    if text != [] {
      SplitIsSeparable(text[1..], separator);
    }
  }

  lemma {:induction false} JoinMembers(parts: seq<Bytes>, separator: Byte, byte: Byte)
    requires byte != separator && byte in Join(parts, separator)
    ensures exists part <- parts :: byte in part
  {
    if |parts| > 1 && byte !in parts[0] {
      JoinMembers(parts[1..], separator, byte);
    }
  }

  // ---- Building a query and reading it ----

  function PairText(pair: (Bytes, Bytes)): Bytes { Encoded(pair.0) + [EQUALS] + Encoded(pair.1) }

  function PairTexts(pairs: seq<(Bytes, Bytes)>): seq<Bytes> {
    if pairs == [] then [] else [PairText(pairs[0])] + PairTexts(pairs[1..])
  }

  function BuildQuery(pairs: seq<(Bytes, Bytes)>): Bytes { Join(PairTexts(pairs), AMPERSAND) }

  function FindParam(parts: seq<Bytes>, key: Bytes, utf8: Encoding): Option<Bytes> {
    if parts == [] then None
    else
      match SplitOnce(parts[0], EQUALS)
      case Some(pair) =>
        if utf8.lossy(Decoded(pair.0)) == key then Some(utf8.lossy(Decoded(pair.1)))
        else FindParam(parts[1..], key, utf8)
      case None => FindParam(parts[1..], key, utf8)
  }

  function QueryParam(query: Bytes, key: Bytes, utf8: Encoding): Option<Bytes> {
    FindParam(Split(query, AMPERSAND), key, utf8)
  }

  function FirstValue(pairs: seq<(Bytes, Bytes)>, key: Bytes): Option<Bytes> {
    if pairs == [] then None
    else if pairs[0].0 == key then Some(pairs[0].1)
    else FirstValue(pairs[1..], key)
  }

  lemma EncodedHasNoSeparators(value: Bytes)
    ensures EQUALS !in Encoded(value) && AMPERSAND !in Encoded(value)
  {
    EncodedIsPlain(value);
  }

  lemma PairReads(pair: (Bytes, Bytes))
    ensures SplitOnce(PairText(pair), EQUALS) == Some((Encoded(pair.0), Encoded(pair.1)))
    ensures Decoded(Encoded(pair.0)) == pair.0 && Decoded(Encoded(pair.1)) == pair.1
    ensures AMPERSAND !in PairText(pair)
  {
    EncodedHasNoSeparators(pair.0);
    EncodedHasNoSeparators(pair.1);
    SplitOnceOf(Encoded(pair.0), Encoded(pair.1), EQUALS);
    DecodeInvertsEncode(pair.0);
    DecodeInvertsEncode(pair.1);
  }

  lemma {:induction false} FindsFirstValue(pairs: seq<(Bytes, Bytes)>, key: Bytes, utf8: Encoding)
    requires KeepsTexts(utf8) && forall pair <- pairs :: utf8.isText(pair.0) && utf8.isText(pair.1)
    ensures FindParam(PairTexts(pairs), key, utf8) == FirstValue(pairs, key)
    ensures Separable(PairTexts(pairs), AMPERSAND) && (pairs != [] ==> PairTexts(pairs) != [])
  {
    if pairs != [] {
      FindsFirstValue(pairs[1..], key, utf8);
      PairReads(pairs[0]);
    }
  }

  /** Reading a built query gives the first value paired with the key, for all texts. */
  lemma QueryRoundTrip(pairs: seq<(Bytes, Bytes)>, key: Bytes, utf8: Encoding)
    requires KeepsTexts(utf8) && forall pair <- pairs :: utf8.isText(pair.0) && utf8.isText(pair.1)
    ensures QueryParam(BuildQuery(pairs), key, utf8) == FirstValue(pairs, key)
  {
    FindsFirstValue(pairs, key, utf8);
    if pairs == [] {
      assert FindParam([[]], key, utf8) == None;
    } else {
      SplitInvertsJoin(PairTexts(pairs), AMPERSAND);
    }
  }

  // ---- Removing parameters ----

  function LowerByte(byte: Byte): Byte { if 0x41 <= byte <= 0x5A then byte + 32 else byte }

  lemma LowerByteByLetter(byte: Byte)
    ensures LowerByte(byte) == LowerAscii(byte as char) as int
  {
  }

  predicate EqualIgnoringCase(a: Bytes, b: Bytes) {
    |a| == |b| && forall i | 0 <= i < |a| :: LowerByte(a[i]) == LowerByte(b[i])
  }

  function RawKey(part: Bytes): Bytes {
    var pair := SplitOnce(part, EQUALS);
    if pair.Some? then pair.value.0 else part
  }

  predicate IsNamed(rawKey: Bytes, keys: seq<Bytes>, utf8: Encoding) {
    exists key <- keys :: EqualIgnoringCase(utf8.lossy(Decoded(rawKey)), key)
  }

  predicate IsKept(part: Bytes, keys: seq<Bytes>, utf8: Encoding) { part != [] && !IsNamed(RawKey(part), keys, utf8) }

  function Kept(parts: seq<Bytes>, keys: seq<Bytes>, utf8: Encoding): (kept: seq<Bytes>)
    ensures forall part :: part in kept <==> part in parts && IsKept(part, keys, utf8)
  {
    if parts == [] then []
    else if IsKept(parts[0], keys, utf8) then [parts[0]] + Kept(parts[1..], keys, utf8)
    else Kept(parts[1..], keys, utf8)
  }

  /** A URL as the source takes it apart: at the first '#', then at the first '?' before it. */
  datatype Url = Url(base: Bytes, query: Option<Bytes>, fragment: Option<Bytes>) {
    predicate Valid() {
      && HASH !in base && QUESTION !in base
      && (query.Some? ==> HASH !in query.value)
    }

    function Text(): Bytes {
      base + (if query.Some? then [QUESTION] + query.value else [])
      + (if fragment.Some? then [HASH] + fragment.value else [])
    }
  }

  function Parsed(text: Bytes): (url: Url)
    ensures url.Valid() && url.Text() == text
  {
    var cut := SplitOnce(text, HASH);
    var head := if cut.Some? then cut.value.0 else text;
    var fragment := if cut.Some? then Some(cut.value.1) else None;
    match SplitOnce(head, QUESTION)
    case Some(pair) => Url(pair.0, Some(pair.1), fragment)
    case None => Url(head, None, fragment)
  }

  /** No other parts spell the same text. */
  lemma ParsedText(url: Url)
    requires url.Valid()
    ensures Parsed(url.Text()) == url
  {
    var head := if url.query.Some? then url.base + [QUESTION] + url.query.value else url.base;
    if url.fragment.Some? {
      assert url.Text() == head + [HASH] + url.fragment.value;
      SplitOnceOf(head, url.fragment.value, HASH);
    } else {
      assert url.Text() == head;
    }
    if url.query.Some? {
      SplitOnceOf(url.base, url.query.value, QUESTION);
    }
  }

  function KeptQuery(query: Bytes, keys: seq<Bytes>, utf8: Encoding): Option<Bytes> {
    var kept := Kept(Split(query, AMPERSAND), keys, utf8);
    if kept == [] then None else Some(Join(kept, AMPERSAND))
  }

  function Stripped(url: Url, keys: seq<Bytes>, utf8: Encoding): Url {
    url.(query := if url.query.Some? then KeptQuery(url.query.value, keys, utf8) else None)
  }

  method RemoveQueryParams(text: Bytes, keys: seq<Bytes>, utf8: Encoding) returns (output: Bytes)
    ensures output == Stripped(Parsed(text), keys, utf8).Text()
  {
    var cut := SplitOnce(text, HASH);
    var withoutFragment := if cut.Some? then cut.value.0 else text;
    var split := SplitOnce(withoutFragment, QUESTION);
    if split.None? {
      return text;
    }
    var (base, query) := split.value;
    var kept := Kept(Split(query, AMPERSAND), keys, utf8);
    output := base;
    if kept != [] {
      output := output + ([QUESTION] + Join(kept, AMPERSAND));
    }
    if cut.Some? {
      output := output + ([HASH] + cut.value.1);
    }
    ghost var url := Url(base, KeptQuery(query, keys, utf8), if cut.Some? then Some(cut.value.1) else None);
    assert Stripped(Parsed(text), keys, utf8) == url;
    assert url.Text() == output by {
      assert base + [] == base;
      assert cut.None? ==> output + [] == output;
    }
  }

  lemma StrippedIsValid(url: Url, keys: seq<Bytes>, utf8: Encoding)
    requires url.Valid()
    ensures Stripped(url, keys, utf8).Valid()
  {
    if url.query.Some? {
      var parts := Split(url.query.value, AMPERSAND);
      var kept := Kept(parts, keys, utf8);
      SplitIsSeparable(url.query.value, AMPERSAND);
      if HASH in Join(kept, AMPERSAND) {
        JoinMembers(kept, AMPERSAND, HASH);
      }
    }
  }

  /** What is left of the query is its other non-empty pairs, byte for byte and in order. */
  lemma OtherPairsSurvive(query: Bytes, keys: seq<Bytes>, utf8: Encoding)
    ensures var left := KeptQuery(query, keys, utf8);
            var kept := Kept(Split(query, AMPERSAND), keys, utf8);
            if left.Some? then Split(left.value, AMPERSAND) == kept else kept == []
  {
    SplitIsSeparable(query, AMPERSAND);
    var kept := Kept(Split(query, AMPERSAND), keys, utf8);
    if kept != [] {
      SplitInvertsJoin(kept, AMPERSAND);
    }
  }

  /** But empty pairs go, too: `a=1&&b=2` comes back as `a=1&b=2`, although neither key is removed. */
  lemma EmptyPairsVanish(utf8: Encoding)
    requires KeepsTexts(utf8) && utf8.isText([0x61]) && utf8.isText([0x62])
    ensures var a, b := [0x61, EQUALS, 0x31], [0x62, EQUALS, 0x32];
            KeptQuery(a + [AMPERSAND] + ([AMPERSAND] + b), [API_KEY], utf8) == Some(a + [AMPERSAND] + b)
  {
    var a: Bytes, b: Bytes := [0x61, EQUALS, 0x31], [0x62, EQUALS, 0x32];
    PairOfOne(0x61, 0x31, utf8);
    PairOfOne(0x62, 0x32, utf8);
    EmptyPartVanishes(a, b, [API_KEY], utf8);
  }

  lemma EmptyPartVanishes(a: Bytes, b: Bytes, keys: seq<Bytes>, utf8: Encoding)
    requires AMPERSAND !in a && AMPERSAND !in b && IsKept(a, keys, utf8) && IsKept(b, keys, utf8)
    ensures KeptQuery(a + [AMPERSAND] + ([AMPERSAND] + b), keys, utf8) == Some(a + [AMPERSAND] + b)
  {
    JoinOfThree(a, [], b);
    assert [] + [AMPERSAND] + b == [AMPERSAND] + b;
    SplitInvertsJoin([a, [], b], AMPERSAND);
    KeptOfThree(a, b, keys, utf8);
    JoinOfTwo(a, b);
  }

  lemma KeptOfThree(a: Bytes, b: Bytes, keys: seq<Bytes>, utf8: Encoding)
    requires IsKept(a, keys, utf8) && IsKept(b, keys, utf8)
    ensures Kept([a, [], b], keys, utf8) == [a, b]
  {
    assert [a, [], b][1..] == [[], b] && [[], b][1..] == [b] && [b][1..] == [];
    assert Kept([b], keys, utf8) == [b] && Kept([[], b], keys, utf8) == [b];
  }

  lemma JoinOfTwo(a: Bytes, b: Bytes)
    ensures Join([a, b], AMPERSAND) == a + [AMPERSAND] + b
  {
    assert [a, b][1..] == [b];
  }

  lemma JoinOfThree(a: Bytes, b: Bytes, c: Bytes)
    ensures Join([a, b, c], AMPERSAND) == a + [AMPERSAND] + (b + [AMPERSAND] + c)
  {
    assert [a, b, c][1..] == [b, c];
    JoinOfTwo(b, c);
  }

  lemma PairOfOne(key: Byte, value: Byte, utf8: Encoding)
    requires KeepsTexts(utf8) && utf8.isText([key]) && key !in {EQUALS, PERCENT, PLUS}
    ensures IsKept([key, EQUALS, value], [API_KEY], utf8)
  {
    assert [key] + [EQUALS] + [value] == [key, EQUALS, value];
    SplitOnceOf([key], [value], EQUALS);
    assert Decoded([key]) == [key];
  }

  lemma {:induction false} KeptTwice(parts: seq<Bytes>, keys: seq<Bytes>, utf8: Encoding)
    requires forall part <- parts :: IsKept(part, keys, utf8)
    ensures Kept(parts, keys, utf8) == parts
  {
    if parts != [] {
      KeptTwice(parts[1..], keys, utf8);
    }
  }

  /** Removing parameters twice is removing them once. */
  lemma RemovalIsIdempotent(text: Bytes, keys: seq<Bytes>, utf8: Encoding)
    ensures var once := Stripped(Parsed(text), keys, utf8).Text();
            Stripped(Parsed(once), keys, utf8).Text() == once
  {
    var url := Parsed(text);
    var once := Stripped(url, keys, utf8);
    StrippedIsValid(url, keys, utf8);
    ParsedText(once);
    if once.query.Some? {
      OtherPairsSurvive(url.query.value, keys, utf8);
      KeptTwice(Kept(Split(url.query.value, AMPERSAND), keys, utf8), keys, utf8);
    }
  }

  lemma {:induction false} FindInKept(parts: seq<Bytes>, keys: seq<Bytes>, key: Bytes, utf8: Encoding)
    requires !exists removed <- keys :: EqualIgnoringCase(key, removed)
    ensures FindParam(Kept(parts, keys, utf8), key, utf8) == FindParam(parts, key, utf8)
  {
    if parts != [] {
      FindInKept(parts[1..], keys, key, utf8);
    }
  }

  function UrlParam(url: Url, key: Bytes, utf8: Encoding): Option<Bytes> {
    if url.query.Some? then QueryParam(url.query.value, key, utf8) else None
  }

  /** Every other parameter reads as before. */
  lemma OtherParametersReadAlike(text: Bytes, keys: seq<Bytes>, key: Bytes, utf8: Encoding)
    requires !exists removed <- keys :: EqualIgnoringCase(key, removed)
    ensures UrlParam(Parsed(Stripped(Parsed(text), keys, utf8).Text()), key, utf8) == UrlParam(Parsed(text), key, utf8)
  {
    var url := Parsed(text);
    StrippedIsValid(url, keys, utf8);
    ParsedText(Stripped(url, keys, utf8));
    if url.query.Some? {
      OtherPairsSurvive(url.query.value, keys, utf8);
      FindInKept(Split(url.query.value, AMPERSAND), keys, key, utf8);
    }
  }

  // ---- The access token ----

  /** The first pair with one of the keys and a value that is not blank, the keys in turn. */
  function TokenUnder(parts: seq<Bytes>, key: Bytes, utf8: Encoding): Option<Bytes> {
    if parts == [] then None
    else
      match SplitOnce(parts[0], EQUALS)
      case Some(pair) =>
        if EqualIgnoringCase(utf8.lossy(Decoded(pair.0)), key) && !utf8.isBlank(utf8.lossy(Decoded(pair.1)))
        then Some(utf8.lossy(Decoded(pair.1)))
        else TokenUnder(parts[1..], key, utf8)
      case None => TokenUnder(parts[1..], key, utf8)
  }

  function FirstToken(parts: seq<Bytes>, keys: seq<Bytes>, utf8: Encoding): Option<Bytes> {
    if keys == [] then None
    else
      var found := TokenUnder(parts, keys[0], utf8);
      if found.Some? then found else FirstToken(parts, keys[1..], utf8)
  }

  /** The part is a pair with the key, in whatever case, and this value, which is not blank. */
  predicate CarriesToken(part: Bytes, key: Bytes, value: Bytes, utf8: Encoding) {
    var pair := SplitOnce(part, EQUALS);
    && pair.Some? && value == utf8.lossy(Decoded(pair.value.1)) && !utf8.isBlank(value)
    && EqualIgnoringCase(utf8.lossy(Decoded(pair.value.0)), key)
  }

  lemma {:induction false} NoTokenExactly(parts: seq<Bytes>, key: Bytes, utf8: Encoding)
    ensures TokenUnder(parts, key, utf8).None? <==> HoldsNoToken(parts, key, utf8)
  {
    if parts != [] {
      NoTokenExactly(parts[1..], key, utf8);
      var pair := SplitOnce(parts[0], EQUALS);
      if pair.Some? {
        var v := utf8.lossy(Decoded(pair.value.1));
        assert CarriesToken(parts[0], key, v, utf8) <==> exists v :: CarriesToken(parts[0], key, v, utf8);
      }
      assert forall part :: part in parts <==> part == parts[0] || part in parts[1..];
    }
  }

  lemma {:induction false} TokenUnderIsFirst(parts: seq<Bytes>, key: Bytes, utf8: Encoding) returns (p: nat)
    requires TokenUnder(parts, key, utf8).Some?
    ensures p < |parts| && CarriesToken(parts[p], key, TokenUnder(parts, key, utf8).value, utf8)
    ensures HoldsNoToken(parts[..p], key, utf8)
  {
    var pair := SplitOnce(parts[0], EQUALS);
    p := 0;
    if !(pair.Some? && CarriesToken(parts[0], key, utf8.lossy(Decoded(pair.value.1)), utf8)) {
      p := TokenUnderIsFirst(parts[1..], key, utf8);
      assert parts[..p + 1] == [parts[0]] + parts[1..][..p];
      p := p + 1;
    }
  }

  ghost predicate HoldsNoToken(parts: seq<Bytes>, key: Bytes, utf8: Encoding) {
    forall part, value :: part in parts ==> !CarriesToken(part, key, value, utf8)
  }

  /** The token found is that of the first key that has one, in its first pair; and one is found
      whenever any key has one. */
  lemma {:induction false} FirstTokenExactly(parts: seq<Bytes>, keys: seq<Bytes>, utf8: Encoding)
    returns (k: nat, p: nat)
    ensures var found := FirstToken(parts, keys, utf8);
            if found.None? then forall key <- keys :: HoldsNoToken(parts, key, utf8)
            else && k < |keys| && p < |parts| && CarriesToken(parts[p], keys[k], found.value, utf8)
                 && HoldsNoToken(parts[..p], keys[k], utf8)
                 && forall i | 0 <= i < k :: HoldsNoToken(parts, keys[i], utf8)
  {
    k, p := 0, 0;
    if keys != [] {
      NoTokenExactly(parts, keys[0], utf8);
      if TokenUnder(parts, keys[0], utf8).Some? {
        p := TokenUnderIsFirst(parts, keys[0], utf8);
      } else {
        k, p := FirstTokenExactly(parts, keys[1..], utf8);
        k := k + 1;
        assert forall i | 0 < i < |keys| :: keys[i] == keys[1..][i - 1];
      }
    }
  }

  function QueryAuthToken(text: Bytes, keys: seq<Bytes>, utf8: Encoding): Option<Bytes> {
    match SplitOnce(text, QUESTION)
    case None => None
    case Some(pair) =>
      var cut := SplitOnce(pair.1, HASH);
      FirstToken(Split(if cut.Some? then cut.value.0 else pair.1, AMPERSAND), keys, utf8)
  }

  /** The source looks for the first '?' anywhere: in a URL without a query, that is one inside
      the fragment. */
  lemma TokenByParts(url: Url, keys: seq<Bytes>, utf8: Encoding)
    requires url.Valid()
    ensures QueryAuthToken(url.Text(), keys, utf8)
      == if url.query.Some? then FirstToken(Split(url.query.value, AMPERSAND), keys, utf8)
         else if url.fragment.Some? then QueryAuthToken(url.fragment.value, keys, utf8)
         else None
  {
    var text := url.Text();
    if url.query.Some? {
      var rest := url.query.value + if url.fragment.Some? then [HASH] + url.fragment.value else [];
      assert text == url.base + [QUESTION] + rest;
      SplitOnceOf(url.base, rest, QUESTION);
      if url.fragment.Some? {
        assert rest == url.query.value + [HASH] + url.fragment.value;
        SplitOnceOf(url.query.value, url.fragment.value, HASH);
      } else {
        assert rest == url.query.value;
      }
    } else if url.fragment.Some? {
      var inFragment := SplitOnce(url.fragment.value, QUESTION);
      if inFragment.Some? {
        var before := url.base + [HASH] + inFragment.value.0;
        assert text == before + [QUESTION] + inFragment.value.1;
        SplitOnceOf(before, inFragment.value.1, QUESTION);
      }
    }
  }

  lemma {:induction false} NoTokenUnder(parts: seq<Bytes>, key: Bytes, keys: seq<Bytes>, utf8: Encoding)
    requires key in keys && forall part <- parts :: IsKept(part, keys, utf8)
    ensures TokenUnder(parts, key, utf8).None?
  {
    if parts != [] {
      assert IsKept(parts[0], keys, utf8);
      NoTokenUnder(parts[1..], key, keys, utf8);
    }
  }

  lemma {:induction false} NoTokenLeft(parts: seq<Bytes>, keys: seq<Bytes>, some: seq<Bytes>, utf8: Encoding)
    requires forall part <- parts :: IsKept(part, keys, utf8)
    requires forall key <- some :: key in keys
    ensures FirstToken(parts, some, utf8).None?
  {
    if some != [] {
      NoTokenUnder(parts, some[0], keys, utf8);
      NoTokenLeft(parts, keys, some[1..], utf8);
    }
  }

  /** The URL has no query, or one whose every pair is empty or has one of the keys. */
  predicate HoldsNothingElse(url: Url, keys: seq<Bytes>, utf8: Encoding) {
    url.query.Some? ==>
      forall part <- Split(url.query.value, AMPERSAND) :: part == [] || IsNamed(RawKey(part), keys, utf8)
  }

  lemma NoQueryLeft(url: Url, keys: seq<Bytes>, utf8: Encoding)
    ensures Stripped(url, keys, utf8).query.None? <==> HoldsNothingElse(url, keys, utf8)
  {
    if url.query.Some? {
      var parts := Split(url.query.value, AMPERSAND);
      var kept := Kept(parts, keys, utf8);
      assert kept != [] ==> kept[0] in parts && IsKept(kept[0], keys, utf8);
      assert forall part <- parts :: IsKept(part, keys, utf8) ==> part in kept;
    }
  }

  /** After the token keys are removed, no token is found, unless the query held nothing else and the
      fragment has one of its own: a '?' that `remove_query_params` never looks behind. */
  lemma RemovalHidesTheToken(text: Bytes, keys: seq<Bytes>, utf8: Encoding)
    ensures var url := Parsed(text);
            QueryAuthToken(Stripped(url, keys, utf8).Text(), keys, utf8)
              == if HoldsNothingElse(url, keys, utf8) && url.fragment.Some?
                 then QueryAuthToken(url.fragment.value, keys, utf8) else None
  {
    var url := Parsed(text);
    var left := Stripped(url, keys, utf8);
    NoQueryLeft(url, keys, utf8);
    StrippedIsValid(url, keys, utf8);
    TokenByParts(left, keys, utf8);
    if left.query.Some? {
      OtherPairsSurvive(url.query.value, keys, utf8);
      NoTokenLeft(Split(left.query.value, AMPERSAND), keys, keys, utf8);
    }
  }

  /** So a URL whose fragment has no '?' never shows one. */
  lemma NoTokenWithoutFragmentQuery(text: Bytes, keys: seq<Bytes>, utf8: Encoding)
    requires var fragment := Parsed(text).fragment; fragment.Some? ==> QUESTION !in fragment.value
    ensures QueryAuthToken(Stripped(Parsed(text), keys, utf8).Text(), keys, utf8) == None
  {
    RemovalHidesTheToken(text, keys, utf8);
  }

  lemma {:induction false} PlainTextDecodes(text: Bytes)
    requires PERCENT !in text && PLUS !in text
    ensures Decoded(text) == text
  {
    if text != [] {
      PlainTextDecodes(text[1..]);
    }
  }

  lemma FragmentAlone(fragment: Bytes, keys: seq<Bytes>, utf8: Encoding)
    ensures QueryAuthToken(Stripped(Parsed([HASH] + fragment), keys, utf8).Text(), keys, utf8)
      == QueryAuthToken(fragment, keys, utf8)
  {
    var url := Url([], None, Some(fragment));
    assert url.Text() == [HASH] + fragment;
    ParsedText(url);
    assert Stripped(url, keys, utf8) == url;
    TokenByParts(url, keys, utf8);
  }

  predicate IsPlain(text: Bytes) {
    && AMPERSAND !in text && EQUALS !in text && HASH !in text && PERCENT !in text && PLUS !in text
    && QUESTION !in text
  }

  lemma PairToken(key: Bytes, value: Bytes, utf8: Encoding)
    requires KeepsTexts(utf8) && utf8.isText(key) && utf8.isText(value) && !utf8.isBlank(value)
    requires IsPlain(key) && IsPlain(value)
    ensures var pair := key + [EQUALS] + value;
            TokenUnder([pair], key, utf8) == Some(value) && HASH !in pair && AMPERSAND !in pair
  {
    SplitOnceOf(key, value, EQUALS);
    PlainTextDecodes(key);
    PlainTextDecodes(value);
  }

  lemma TokenAfterQuestion(pair: Bytes, keys: seq<Bytes>, utf8: Encoding)
    requires HASH !in pair && AMPERSAND !in pair
    ensures QueryAuthToken([QUESTION] + pair, keys, utf8) == FirstToken([pair], keys, utf8)
  {
    SplitOnceOf([], pair, QUESTION);
    assert [QUESTION] + pair == [] + [QUESTION] + pair;
    SplitAppend(pair, [], AMPERSAND);
  }

  lemma FirstTokenInFragment(pair: Bytes, keys: seq<Bytes>, utf8: Encoding)
    requires HASH !in pair && AMPERSAND !in pair && keys != [] && TokenUnder([pair], keys[0], utf8).Some?
    ensures QueryAuthToken(Stripped(Parsed([HASH] + ([QUESTION] + pair)), keys, utf8).Text(), keys, utf8)
      == TokenUnder([pair], keys[0], utf8)
  {
    FragmentAlone([QUESTION] + pair, keys, utf8);
    TokenAfterQuestion(pair, keys, utf8);
  }

  /** And the exception is real: in `#?key=value` a plain token under the first of the keys stays. */
  lemma FragmentTokenSurvives(key: Bytes, value: Bytes, keys: seq<Bytes>, utf8: Encoding)
    requires KeepsTexts(utf8) && utf8.isText(key) && utf8.isText(value) && !utf8.isBlank(value)
    requires IsPlain(key) && IsPlain(value) && keys != [] && keys[0] == key
    ensures var text := [HASH] + ([QUESTION] + (key + [EQUALS] + value));
            QueryAuthToken(Stripped(Parsed(text), keys, utf8).Text(), keys, utf8) == Some(value)
  {
    PairToken(key, value, utf8);
    FirstTokenInFragment(key + [EQUALS] + value, keys, utf8);
  }

  /** Under the source's keys: `#?api_key=v`. */
  lemma ApiKeySurvives(keys: seq<Bytes>, utf8: Encoding)
    requires KeepsTexts(utf8) && utf8.isText(API_KEY) && utf8.isText([0x76]) && !utf8.isBlank([0x76])
    requires keys != [] && keys[0] == API_KEY
    ensures var text := [HASH] + ([QUESTION] + (API_KEY + [EQUALS] + [0x76]));
            QueryAuthToken(Stripped(Parsed(text), keys, utf8).Text(), keys, utf8) == Some([0x76])
  {
    FragmentTokenSurvives(API_KEY, [0x76], keys, utf8);
  }
}
