/**
 The text forms a byte string can hide in: base64, percent encoding and JSON escapes, each with its standard's
 decoder.
 */
module Bytes {
  import opened Options

  type Bytes = seq<bv8>

  function Prepend<T>(head: seq<T>, rest: Option<seq<T>>): Option<seq<T>>
  {
    if rest.None? then None else Some(head + rest.value)
  }

  lemma PrependNothing<T>(rest: Option<seq<T>>)
    ensures Prepend([], rest) == rest
  {
    if rest.Some? {
      assert [] + rest.value == rest.value;
    }
  }

  lemma PrependTwice<T>(front: seq<T>, last: T, rest: Option<seq<T>>)
    ensures Prepend(front, Prepend([last], rest)) == Prepend(front + [last], rest)
  {
    if rest.Some? {
      assert front + ([last] + rest.value) == front + [last] + rest.value;
    }
  }

  predicate IsAsciiLetter(b: bv8)
  {
    65 <= b <= 90 || 97 <= b <= 122
  }

  predicate IsAsciiDigit(b: bv8)
  {
    48 <= b <= 57
  }
}

/** Base64, sections 4 and 5 of RFC 4648. */
module Base64 {
  import opened Options
  import opened Bytes

  const PAD: bv8 := 61

  datatype Alphabet = Standard | UrlSafe
  {
    function Letter62(): bv8
    {
      if Standard? then 43 else 45
    }

    function Letter63(): bv8
    {
      if Standard? then 47 else 95
    }

    function Letter(sextet: bv8): bv8
      requires sextet < 64
    {
      if sextet < 26 then 65 + sextet
      else if sextet < 52 then 97 + (sextet - 26)
      else if sextet < 62 then 48 + (sextet - 52)
      else if sextet == 62 then Letter62()
      else Letter63()
    }

    function Sextet(letter: bv8): Option<bv8>
    {
      if 65 <= letter <= 90 then Some(letter - 65)
      else if 97 <= letter <= 122 then Some(letter - 97 + 26)
      else if 48 <= letter <= 57 then Some(letter - 48 + 52)
      else if letter == Letter62() then Some(62)
      else if letter == Letter63() then Some(63)
      else None
    }
  }

  lemma LettersAreSextets(alphabet: Alphabet, sextet: bv8)
    requires sextet < 64
    ensures alphabet.Sextet(alphabet.Letter(sextet)) == Some(sextet)
    ensures alphabet.Letter(sextet) != PAD
  {
  }

  lemma SextetsAreLetters(alphabet: Alphabet, letter: bv8)
    requires alphabet.Sextet(letter).Some?
    ensures alphabet.Sextet(letter).value < 64
    ensures alphabet.Letter(alphabet.Sextet(letter).value) == letter
  {
  }

  const CAPITALS: string := "ABCDEFGHIJKLMNOPQRSTUVWXYZ"
  const SMALL_LETTERS: string := "abcdefghijklmnopqrstuvwxyz"
  const DIGITS: string := "0123456789"

  /** An alphabet as it is printed. */
  function Printed(alphabet: Alphabet): (letters: string)
    ensures |letters| == 64
  {
    CAPITALS + SMALL_LETTERS + DIGITS + if alphabet.Standard? then "+/" else "-_"
  }

  lemma CapitalAt(i: nat)
    requires i < 26
    ensures CAPITALS[i] as nat == 65 + i
  {
    assert i < 13 || CAPITALS[13..][i - 13] == CAPITALS[i];
  }

  lemma SmallLetterAt(i: nat)
    requires i < 26
    ensures SMALL_LETTERS[i] as nat == 97 + i
  {
    assert i < 13 || SMALL_LETTERS[13..][i - 13] == SMALL_LETTERS[i];
  }

  /** A sextet is written as the letter at its place in the alphabet. */
  lemma LettersOfTheAlphabet(alphabet: Alphabet, sextet: bv8)
    requires sextet < 64
    ensures alphabet.Letter(sextet) as char == Printed(alphabet)[sextet as nat]
  {
    var i := sextet as nat;
    if sextet < 26 {
      CapitalAt(i);
    } else if sextet < 52 {
      SmallLetterAt(i - 26);
    } else if sextet < 62 {
      assert Printed(alphabet)[i] == DIGITS[i - 52];
    }
  }

  // The four sextets of three bytes.

  function S0(a: bv8): (s: bv8)
    ensures s < 64
  {
    a >> 2
  }

  function S1(a: bv8, b: bv8): (s: bv8)
    ensures s < 64
  {
    ((a & 0x03) << 4) | (b >> 4)
  }

  function S2(b: bv8, c: bv8): (s: bv8)
    ensures s < 64
  {
    ((b & 0x0f) << 2) | (c >> 6)
  }

  function S3(c: bv8): (s: bv8)
    ensures s < 64
  {
    c & 0x3f
  }

  // The three bytes of four sextets.

  function B0(s0: bv8, s1: bv8): bv8
  {
    (s0 << 2) | (s1 >> 4)
  }

  function B1(s1: bv8, s2: bv8): bv8
  {
    (s1 << 4) | (s2 >> 2)
  }

  function B2(s2: bv8, s3: bv8): bv8
  {
    (s2 << 6) | s3
  }

  lemma BytesFromSextets(a: bv8, b: bv8, c: bv8)
    ensures B0(S0(a), S1(a, b)) == a && B1(S1(a, b), S2(b, c)) == b && B2(S2(b, c), S3(c)) == c
    ensures S1(a, 0) & 0x0f == 0 && S2(b, 0) & 0x03 == 0
  {
  }

  lemma SextetsFromBytes(s0: bv8, s1: bv8, s2: bv8, s3: bv8)
    requires s0 < 64 && s1 < 64 && s2 < 64 && s3 < 64
    ensures S0(B0(s0, s1)) == s0 && S1(B0(s0, s1), B1(s1, s2)) == s1
    ensures S2(B1(s1, s2), B2(s2, s3)) == s2 && S3(B2(s2, s3)) == s3
    ensures s1 & 0x0f == 0 ==> S1(B0(s0, s1), 0) == s1
    ensures s2 & 0x03 == 0 ==> S2(B1(s1, s2), 0) == s2
  {
  }

  function Filler(padding: bool, n: nat): Bytes
  {
    if padding then seq(n, _ => PAD) else []
  }

  /** The text of a byte string, three bytes to a group. */
  function Encoded(value: Bytes, alphabet: Alphabet, padding: bool): Bytes
  {
    if |value| == 0 then []
    else if |value| == 1 then
      [alphabet.Letter(S0(value[0])), alphabet.Letter(S1(value[0], 0))] + Filler(padding, 2)
    else if |value| == 2 then
      [alphabet.Letter(S0(value[0])), alphabet.Letter(S1(value[0], value[1])), alphabet.Letter(S2(value[1], 0))]
        + Filler(padding, 1)
    else
      FullGroup(value[0], value[1], value[2], alphabet) + Encoded(value[3..], alphabet, padding)
  }

  function FullGroup(a: bv8, b: bv8, c: bv8, alphabet: Alphabet): Bytes
  {
    [alphabet.Letter(S0(a)), alphabet.Letter(S1(a, b)), alphabet.Letter(S2(b, c)), alphabet.Letter(S3(c))]
  }

  /** A chunk of one to three bytes, the missing ones read as zero. */
  function Group(first: bv8, second: bv8, third: bv8, size: nat, alphabet: Alphabet, padding: bool): Bytes
  {
    [alphabet.Letter(S0(first))]
    + [alphabet.Letter(S1(first, second))]
    + (if size > 1 then [alphabet.Letter(S2(second, third))] else Filler(padding, 1))
    + (if size > 2 then [alphabet.Letter(S3(third))] else Filler(padding, 1))
  }

  lemma EncodedByGroups(value: Bytes, alphabet: Alphabet, padding: bool)
    requires value != []
    ensures var size := if |value| < 3 then |value| else 3;
      var second, third := if size > 1 then value[1] else 0, if size > 2 then value[2] else 0;
      Encoded(value, alphabet, padding) ==
        Group(value[0], second, third, size, alphabet, padding) + Encoded(value[size..], alphabet, padding)
  {
    hide S0, S1, S2, S3, Alphabet.Letter;
    if |value| < 3 {
      assert value[|value|..] == [];
    }
  }

  lemma Shift(before: Bytes, group: Bytes, rest: Bytes)
    ensures (before + group) + rest == before + (group + rest)
  {
  }

  lemma GroupWritten(before: Bytes, first: bv8, second: bv8, third: bv8, size: nat, alphabet: Alphabet, padding: bool,
      after: Bytes)
    requires after == before + [alphabet.Letter(S0(first))] + [alphabet.Letter(S1(first, second))]
      + (if size > 1 then [alphabet.Letter(S2(second, third))] else if padding then [PAD] else [])
      + (if size > 2 then [alphabet.Letter(S3(third))] else if padding then [PAD] else [])
    ensures after == before + Group(first, second, third, size, alphabet, padding)
  {
    hide S0, S1, S2, S3, Alphabet.Letter;
    assert Filler(true, 1) == [PAD];
  }

  method Encode(value: Bytes, alphabet: Alphabet, padding: bool) returns (encoded: Bytes)
    ensures encoded == Encoded(value, alphabet, padding)
  {
    hide S0, S1, S2, S3, Alphabet.Letter, Encoded, Group;
    encoded := [];
    var at := 0;
    assert value[0..] == value;
    while at < |value|
      invariant at <= |value|
      invariant encoded + Encoded(value[at..], alphabet, padding) == Encoded(value, alphabet, padding)
    {
      ghost var before, rest := encoded, value[at..];
      var size := if |value| - at < 3 then |value| - at else 3;
      var chunk := value[at..at + size];
      var first := chunk[0];
      var second := if size > 1 then chunk[1] else 0;
      var third := if size > 2 then chunk[2] else 0;
      encoded := encoded + [alphabet.Letter(S0(first))];
      encoded := encoded + [alphabet.Letter(S1(first, second))];
      if size > 1 {
        encoded := encoded + [alphabet.Letter(S2(second, third))];
      } else if padding {
        encoded := encoded + [PAD];
      }
      if size > 2 {
        encoded := encoded + [alphabet.Letter(S3(third))];
      } else if padding {
        encoded := encoded + [PAD];
      }
      at := at + size;
      GroupWritten(before, first, second, third, size, alphabet, padding, encoded);
      EncodedByGroups(rest, alphabet, padding);
      assert value[at..] == rest[size..];
      Shift(before, Group(first, second, third, size, alphabet, padding), Encoded(value[at..], alphabet, padding));
    }
    NothingEncoded(value, alphabet, padding);
  }

  lemma NothingEncoded(value: Bytes, alphabet: Alphabet, padding: bool)
    ensures Encoded(value[|value|..], alphabet, padding) == []
  {
  }

  /** Decoding after section 3.5 of RFC 4648, pad bits checked. */
  function Decoded(text: Bytes, alphabet: Alphabet, padding: bool): Option<Bytes>
  {
    if text == [] then Some([])
    else if |text| < 4 then
      if padding then None else LastGroup(text, alphabet)
    else if padding && text[3] == PAD then
      if |text| > 4 then None else LastGroup(if text[2] == PAD then text[..2] else text[..3], alphabet)
    else
      var s0, s1, s2, s3 := alphabet.Sextet(text[0]), alphabet.Sextet(text[1]), alphabet.Sextet(text[2]),
        alphabet.Sextet(text[3]);
      if s0.None? || s1.None? || s2.None? || s3.None? then None
      else Prepend([B0(s0.value, s1.value), B1(s1.value, s2.value), B2(s2.value, s3.value)],
        Decoded(text[4..], alphabet, padding))
  }

  /** A group cut short carries one or two bytes, and nothing in the bits left over. */
  function LastGroup(text: Bytes, alphabet: Alphabet): Option<Bytes>
  {
    if |text| == 2 then
      var s0, s1 := alphabet.Sextet(text[0]), alphabet.Sextet(text[1]);
      if s0.None? || s1.None? || s1.value & 0x0f != 0 then None else Some([B0(s0.value, s1.value)])
    else if |text| == 3 then
      var s0, s1, s2 := alphabet.Sextet(text[0]), alphabet.Sextet(text[1]), alphabet.Sextet(text[2]);
      if s0.None? || s1.None? || s2.None? || s2.value & 0x03 != 0 then None
      else Some([B0(s0.value, s1.value), B1(s1.value, s2.value)])
    else None
  }

  lemma OneByteBack(a: bv8, alphabet: Alphabet, padding: bool)
    ensures Decoded(Encoded([a], alphabet, padding), alphabet, padding) == Some([a])
  {
    hide S0, S1, B0, Alphabet.Letter, Alphabet.Sextet;
    BytesFromSextets(a, 0, 0);
    LettersAreSextets(alphabet, S0(a));
    LettersAreSextets(alphabet, S1(a, 0));
    var text := Encoded([a], alphabet, padding);
    assert text[..2] == [alphabet.Letter(S0(a)), alphabet.Letter(S1(a, 0))];
  }

  lemma TwoBytesBack(a: bv8, b: bv8, alphabet: Alphabet, padding: bool)
    ensures Decoded(Encoded([a, b], alphabet, padding), alphabet, padding) == Some([a, b])
  {
    hide S0, S1, S2, B0, B1, Alphabet.Letter, Alphabet.Sextet;
    BytesFromSextets(a, b, 0);
    LettersAreSextets(alphabet, S0(a));
    LettersAreSextets(alphabet, S1(a, b));
    LettersAreSextets(alphabet, S2(b, 0));
    var text := Encoded([a, b], alphabet, padding);
    assert text[2] != PAD;
    assert text[..3] == [alphabet.Letter(S0(a)), alphabet.Letter(S1(a, b)), alphabet.Letter(S2(b, 0))];
  }

  lemma FullGroupBack(a: bv8, b: bv8, c: bv8, tail: Bytes, alphabet: Alphabet, padding: bool)
    ensures Decoded(FullGroup(a, b, c, alphabet) + tail, alphabet, padding) ==
      Prepend([a, b, c], Decoded(tail, alphabet, padding))
  {
    hide S0, S1, S2, S3, B0, B1, B2, Alphabet.Letter, Alphabet.Sextet, LastGroup;
    BytesFromSextets(a, b, c);
    LettersAreSextets(alphabet, S0(a));
    LettersAreSextets(alphabet, S1(a, b));
    LettersAreSextets(alphabet, S2(b, c));
    LettersAreSextets(alphabet, S3(c));
    assert (FullGroup(a, b, c, alphabet) + tail)[4..] == tail;
  }

  /** What was encoded decodes to itself. */
  lemma {:induction false} DecodesBack(value: Bytes, alphabet: Alphabet, padding: bool)
    ensures Decoded(Encoded(value, alphabet, padding), alphabet, padding) == Some(value)
    decreases |value|
  {
    hide Decoded, FullGroup;
    if value == [] {
      NothingDecodes(alphabet, padding);
    } else if |value| == 1 {
      assert value == [value[0]];
      OneByteBack(value[0], alphabet, padding);
    } else if |value| == 2 {
      assert value == [value[0], value[1]];
      TwoBytesBack(value[0], value[1], alphabet, padding);
    } else {
      var rest := value[3..];
      assert value == [value[0], value[1], value[2]] + rest;
      DecodesBack(rest, alphabet, padding);
      FullGroupBack(value[0], value[1], value[2], Encoded(rest, alphabet, padding), alphabet, padding);
    }
  }

  lemma NothingDecodes(alphabet: Alphabet, padding: bool)
    ensures Decoded([], alphabet, padding) == Some([])
  {
  }

  lemma LastGroupIsCanonical(text: Bytes, alphabet: Alphabet)
    requires LastGroup(text, alphabet).Some?
    ensures text == Encoded(LastGroup(text, alphabet).value, alphabet, false)
    ensures Encoded(LastGroup(text, alphabet).value, alphabet, true) == text + Filler(true, 4 - |text|)
  {
    hide S0, S1, S2, S3, B0, B1, B2, Alphabet.Letter, Alphabet.Sextet;
    SextetsAreLetters(alphabet, text[0]);
    SextetsAreLetters(alphabet, text[1]);
    var s0, s1 := alphabet.Sextet(text[0]).value, alphabet.Sextet(text[1]).value;
    if |text| == 2 {
      SextetsFromBytes(s0, s1, 0, 0);
    } else {
      SextetsAreLetters(alphabet, text[2]);
      SextetsFromBytes(s0, s1, alphabet.Sextet(text[2]).value, 0);
    }
  }

  /** Only one text decodes to a given value: the one the encoder writes. */
  lemma {:induction false} OnlyTheEncodingDecodes(text: Bytes, alphabet: Alphabet, padding: bool)
    requires Decoded(text, alphabet, padding).Some?
    ensures text == Encoded(Decoded(text, alphabet, padding).value, alphabet, padding)
    decreases |text|
  {
    hide S0, S1, S2, S3, B0, B1, B2, Alphabet.Letter, Alphabet.Sextet, LastGroup;
    if text == [] {
    } else if |text| < 4 {
      LastGroupIsCanonical(text, alphabet);
    } else if padding && text[3] == PAD {
      LastPaddedIsCanonical(text, alphabet);
    } else {
      OnlyTheEncodingDecodes(text[4..], alphabet, padding);
      FullGroupIsCanonical(text, alphabet, padding);
    }
  }

  lemma LastPaddedIsCanonical(text: Bytes, alphabet: Alphabet)
    requires |text| == 4 && text[3] == PAD && Decoded(text, alphabet, true).Some?
    ensures text == Encoded(Decoded(text, alphabet, true).value, alphabet, true)
  {
    hide S0, S1, S2, S3, B0, B1, B2, Alphabet.Letter, Alphabet.Sextet, Encoded;
    var kept := if text[2] == PAD then text[..2] else text[..3];
    LastGroupIsCanonical(kept, alphabet);
    assert text == kept + Filler(true, 4 - |kept|);
  }

  lemma FullGroupIsCanonical(text: Bytes, alphabet: Alphabet, padding: bool)
    requires |text| >= 4 && !(padding && text[3] == PAD) && Decoded(text, alphabet, padding).Some?
    requires var rest := Decoded(text[4..], alphabet, padding);
      rest.Some? ==> text[4..] == Encoded(rest.value, alphabet, padding)
    ensures text == Encoded(Decoded(text, alphabet, padding).value, alphabet, padding)
  {
    hide S0, S1, S2, S3, B0, B1, B2, Alphabet.Letter, Alphabet.Sextet, Encoded, LastGroup;
    var s0, s1, s2, s3 := alphabet.Sextet(text[0]), alphabet.Sextet(text[1]), alphabet.Sextet(text[2]),
      alphabet.Sextet(text[3]);
    FourLetters(text[..4], s0.value, s1.value, s2.value, s3.value, alphabet);
    assert text == text[..4] + text[4..];
    EncodedFullGroup(B0(s0.value, s1.value), B1(s1.value, s2.value), B2(s2.value, s3.value),
      Decoded(text[4..], alphabet, padding).value, alphabet, padding);
  }

  lemma FourLetters(letters: Bytes, s0: bv8, s1: bv8, s2: bv8, s3: bv8, alphabet: Alphabet)
    requires |letters| == 4 && alphabet.Sextet(letters[0]) == Some(s0) && alphabet.Sextet(letters[1]) == Some(s1)
    requires alphabet.Sextet(letters[2]) == Some(s2) && alphabet.Sextet(letters[3]) == Some(s3)
    ensures letters == FullGroup(B0(s0, s1), B1(s1, s2), B2(s2, s3), alphabet)
  {
    hide S0, S1, S2, S3, B0, B1, B2, Alphabet.Letter, Alphabet.Sextet;
    SextetsAreLetters(alphabet, letters[0]);
    SextetsAreLetters(alphabet, letters[1]);
    SextetsAreLetters(alphabet, letters[2]);
    SextetsAreLetters(alphabet, letters[3]);
    SextetsFromBytes(s0, s1, s2, s3);
  }

  lemma EncodedFullGroup(a: bv8, b: bv8, c: bv8, rest: Bytes, alphabet: Alphabet, padding: bool)
    ensures Encoded([a, b, c] + rest, alphabet, padding) ==
      FullGroup(a, b, c, alphabet) + Encoded(rest, alphabet, padding)
  {
    hide FullGroup;
    assert ([a, b, c] + rest)[3..] == rest;
  }

  /** Padded text is four letters for every three bytes begun; unpadded text drops the filler. */
  lemma {:induction false} EncodedLength(value: Bytes, alphabet: Alphabet)
    ensures |Encoded(value, alphabet, true)| == 4 * ((|value| + 2) / 3)
    ensures |Encoded(value, alphabet, false)| == 4 * (|value| / 3) + (if |value| % 3 == 0 then 0 else |value| % 3 + 1)
    decreases |value|
  {
    hide S0, S1, S2, S3, Alphabet.Letter;
    if |value| >= 3 {
      EncodedLength(value[3..], alphabet);
    }
  }
}

/** Percent encoding, section 2.1 of RFC 3986, and the form variant with `+` for space. */
module Percent {
  import opened Options
  import opened Bytes

  const PERCENT: bv8 := 37
  const PLUS: bv8 := 43
  const SPACE: bv8 := 32

  datatype Flavor = Form | Component | StrictComponent | Full

  /** Bytes a flavour leaves as they are. */
  predicate IsPlain(b: bv8, flavor: Flavor)
  {
    || IsAsciiLetter(b)
    || IsAsciiDigit(b)
    || match flavor
       case Form => b == 42 || b == 45 || b == 46 || b == 95
       case Component => b == 45 || b == 95 || b == 46 || b == 126 || b == 33 || b == 39 || b == 40 || b == 41
         || b == 42
       case StrictComponent => b == 45 || b == 95 || b == 46 || b == 126
       case Full => false
  }

  function HexDigit(d: bv8, lowercase: bool): bv8
    requires d < 16
  {
    if d < 10 then 48 + d else (if lowercase then 97 else 65) + (d - 10)
  }

  /** Both cases are read. */
  function HexValue(c: bv8): Option<bv8>
  {
    if 48 <= c <= 57 then Some(c - 48)
    else if 65 <= c <= 70 then Some(c - 65 + 10)
    else if 97 <= c <= 102 then Some(c - 97 + 10)
    else None
  }

  function High(b: bv8): (d: bv8)
    ensures d < 16
  {
    b >> 4
  }

  function Low(b: bv8): (d: bv8)
    ensures d < 16
  {
    b & 0x0f
  }

  function EncodedByte(b: bv8, flavor: Flavor, lowercase: bool): Bytes
  {
    if IsPlain(b, flavor) then [b]
    else if flavor.Form? && b == SPACE then [PLUS]
    else [PERCENT, HexDigit(High(b), lowercase), HexDigit(Low(b), lowercase)]
  }

  function Encoded(value: Bytes, flavor: Flavor, lowercase: bool): Bytes
    decreases |value|
  {
    if value == [] then []
    else Encoded(value[..|value| - 1], flavor, lowercase) + EncodedByte(value[|value| - 1], flavor, lowercase)
  }

  /** The punctuation a flavour leaves as it is. */
  function Punctuation(flavor: Flavor): string
  {
    match flavor
    case Form => "*-._"
    case Component => "-_.~!'()*"
    case StrictComponent => "-_.~"
    case Full => ""
  }

  const LOWER_DIGITS: string := "0123456789abcdef"
  const UPPER_DIGITS: string := "0123456789ABCDEF"

  /** ASCII letters and digits are plain in every flavour, and of the rest exactly its punctuation. */
  lemma PlainIsAlphanumericOrPunctuation(b: bv8, flavor: Flavor)
    ensures var c := b as char;
      IsPlain(b, flavor) <==>
        'A' <= c <= 'Z' || 'a' <= c <= 'z' || '0' <= c <= '9' || c in Punctuation(flavor)
  {
  }

  /** A byte is itself, or the plus sign, or a percent sign and its two digits in the case asked for. */
  lemma ByteIsSpelled(b: bv8, flavor: Flavor, lowercase: bool)
    ensures |LOWER_DIGITS| == |UPPER_DIGITS| == 16
    ensures var text, digits := EncodedByte(b, flavor, lowercase), if lowercase then LOWER_DIGITS else UPPER_DIGITS;
      && (IsPlain(b, flavor) ==> text == [b])
      && (!IsPlain(b, flavor) && flavor.Form? && b == SPACE ==> text == [PLUS])
      && (!IsPlain(b, flavor) && !(flavor.Form? && b == SPACE) ==>
            && |text| == 3 && text[0] == PERCENT
            && text[1] as char == digits[b as nat / 16] && text[2] as char == digits[b as nat % 16])
  {
    hide IsPlain, HexDigit;
    DigitsSplit(b);
    DigitOfTable(High(b), lowercase);
    DigitOfTable(Low(b), lowercase);
  }

  lemma DigitsSplit(b: bv8)
    ensures High(b) as nat == b as nat / 16 && Low(b) as nat == b as nat % 16
  {
    assert b >> 4 == b / 16 && b & 0x0f == b % 16;
  }

  lemma DigitOfTable(d: bv8, lowercase: bool)
    requires d < 16
    ensures |LOWER_DIGITS| == |UPPER_DIGITS| == 16
    ensures HexDigit(d, lowercase) as char == (if lowercase then LOWER_DIGITS else UPPER_DIGITS)[d as nat]
  {
  }

  method Encode(value: Bytes, flavor: Flavor, lowercase: bool) returns (encoded: Bytes)
    ensures encoded == Encoded(value, flavor, lowercase)
  {
    hide IsPlain, HexDigit, High, Low;
    encoded := [];
    for i := 0 to |value|
      invariant encoded == Encoded(value[..i], flavor, lowercase)
    {
      assert value[..i + 1][..i] == value[..i];
      var b := value[i];
      if IsPlain(b, flavor) {
        encoded := encoded + [b];
      } else if flavor.Form? && b == SPACE {
        encoded := encoded + [PLUS];
      } else {
        encoded := encoded + [PERCENT, HexDigit(High(b), lowercase), HexDigit(Low(b), lowercase)];
      }
    }
    assert value[..|value|] == value;
  }

  /** A percent sign must be followed by two hex digits; `plus` reads `+` as a space. */
  function Decoded(text: Bytes, plus: bool): Option<Bytes>
  {
    if text == [] then Some([])
    else if text[0] == PERCENT then
      if |text| < 3 || HexValue(text[1]).None? || HexValue(text[2]).None? then None
      else Prepend([(HexValue(text[1]).value << 4) | HexValue(text[2]).value], Decoded(text[3..], plus))
    else if plus && text[0] == PLUS then Prepend([SPACE], Decoded(text[1..], plus))
    else Prepend([text[0]], Decoded(text[1..], plus))
  }

  lemma DigitsRead(b: bv8, lowercase: bool)
    ensures HexValue(HexDigit(High(b), lowercase)) == Some(High(b))
    ensures HexValue(HexDigit(Low(b), lowercase)) == Some(Low(b))
    ensures (High(b) << 4) | Low(b) == b
  {
  }

  lemma PlainIsNotSpecial(b: bv8, flavor: Flavor)
    requires IsPlain(b, flavor)
    ensures b != PERCENT && b != PLUS
  {
  }

  /** An encoded byte at the front is read back as that byte. */
  lemma FirstByteBack(b: bv8, flavor: Flavor, lowercase: bool, tail: Bytes)
    ensures Decoded(EncodedByte(b, flavor, lowercase) + tail, flavor.Form?) == Prepend([b], Decoded(tail, flavor.Form?))
  {
    hide IsPlain, HexDigit, HexValue, High, Low;
    var text := EncodedByte(b, flavor, lowercase) + tail;
    if IsPlain(b, flavor) {
      PlainIsNotSpecial(b, flavor);
      assert text[1..] == tail;
    } else if flavor.Form? && b == SPACE {
      assert text[1..] == tail;
    } else {
      DigitsRead(b, lowercase);
      assert text[3..] == tail;
    }
  }

  lemma {:induction false} DecodesBackBefore(value: Bytes, flavor: Flavor, lowercase: bool, tail: Bytes)
    ensures Decoded(Encoded(value, flavor, lowercase) + tail, flavor.Form?) ==
      Prepend(value, Decoded(tail, flavor.Form?))
    decreases |value|
  {
    hide EncodedByte, Decoded;
    if value == [] {
      assert Encoded(value, flavor, lowercase) + tail == tail;
      PrependNothing(Decoded(tail, flavor.Form?));
    } else {
      var front, last := value[..|value| - 1], value[|value| - 1];
      var group := EncodedByte(last, flavor, lowercase);
      assert Encoded(value, flavor, lowercase) + tail == Encoded(front, flavor, lowercase) + (group + tail);
      DecodesBackBefore(front, flavor, lowercase, group + tail);
      FirstByteBack(last, flavor, lowercase, tail);
      PrependTwice(front, last, Decoded(tail, flavor.Form?));
      assert front + [last] == value;
    }
  }

  /** What was encoded decodes to itself, in every flavour and either hex case. */
  lemma DecodesBack(value: Bytes, flavor: Flavor, lowercase: bool)
    ensures Decoded(Encoded(value, flavor, lowercase), flavor.Form?) == Some(value)
  {
    DecodesBackBefore(value, flavor, lowercase, []);
    assert Encoded(value, flavor, lowercase) + [] == Encoded(value, flavor, lowercase);
    assert value + [] == value;
  }

  /** Encoded text is made of plain bytes, the percent sign, hex digits and, in forms, the plus sign. */
  lemma {:induction false} OnlySafeBytes(value: Bytes, flavor: Flavor, lowercase: bool)
    ensures forall c :: c in Encoded(value, flavor, lowercase) ==>
      IsPlain(c, flavor) || c == PERCENT || HexValue(c).Some? || (flavor.Form? && c == PLUS)
    decreases |value|
  {
    hide IsPlain, HexDigit, HexValue, High, Low;
    if value != [] {
      OnlySafeBytes(value[..|value| - 1], flavor, lowercase);
      DigitsRead(value[|value| - 1], lowercase);
    }
  }
}

/** JSON string escapes, section 7 of RFC 8259. */
module JsonEscapes {
  import opened Options
  import opened Bytes

  const BACKSLASH: char := '\\'
  const QUOTE: char := '\"'
  const BACKSPACE: char := 8 as char
  const FORM_FEED: char := 12 as char

  type Unit = u: nat | u < 0x1_0000

  function HexChar(d: nat, uppercase: bool): char
    requires d < 16
  {
    if d < 10 then '0' + (d as char) else (if uppercase then 'A' else 'a') + ((d - 10) as char)
  }

  function HexValue(c: char): Option<nat>
  {
    if '0' <= c <= '9' then Some(c as nat - '0' as nat)
    else if 'A' <= c <= 'F' then Some(c as nat - 'A' as nat + 10)
    else if 'a' <= c <= 'f' then Some(c as nat - 'a' as nat + 10)
    else None
  }

  const LOWER_DIGITS: string := "0123456789abcdef"
  const UPPER_DIGITS: string := "0123456789ABCDEF"

  lemma DigitOfTable(d: nat, uppercase: bool)
    requires d < 16
    ensures |LOWER_DIGITS| == |UPPER_DIGITS| == 16
    ensures HexChar(d, uppercase) == (if uppercase then UPPER_DIGITS else LOWER_DIGITS)[d]
  {
  }

  function UnicodeEscape(unit: Unit, uppercase: bool): string
  {
    [BACKSLASH, 'u', HexChar(unit / 0x1000, uppercase), HexChar(unit / 0x100 % 16, uppercase),
     HexChar(unit / 0x10 % 16, uppercase), HexChar(unit % 16, uppercase)]
  }

  /** One code unit, or a surrogate pair. */
  function Utf16(c: char): seq<Unit>
  {
    var code := c as nat;
    if code < 0x1_0000 then [code]
    else [0xD800 + (code - 0x1_0000) / 0x400, 0xDC00 + (code - 0x1_0000) % 0x400]
  }

  function UnitEscapes(units: seq<Unit>, uppercase: bool): string
  {
    if units == [] then "" else UnicodeEscape(units[0], uppercase) + UnitEscapes(units[1..], uppercase)
  }

  function EscapedChar(c: char, uppercase: bool): string
  {
    if c == QUOTE then [BACKSLASH, QUOTE]
    else if c == BACKSLASH then [BACKSLASH, BACKSLASH]
    else if c == BACKSPACE then [BACKSLASH, 'b']
    else if c == FORM_FEED then [BACKSLASH, 'f']
    else if c == '\n' then [BACKSLASH, 'n']
    else if c == '\r' then [BACKSLASH, 'r']
    else if c == '\t' then [BACKSLASH, 't']
    else if c < ' ' then UnicodeEscape(c as nat, uppercase)
    else if c as nat < 0x80 then [c]
    else UnitEscapes(Utf16(c), uppercase)
  }

  function Escaped(value: string, uppercase: bool): string
    decreases |value|
  {
    if value == "" then ""
    else Escaped(value[..|value| - 1], uppercase) + EscapedChar(value[|value| - 1], uppercase)
  }

  /**
   Only what has to be escaped is: printable ASCII but the quote and the backslash stays, seven characters have
   a short escape, and the rest takes one code unit or two, four digits each in the case asked for.
   */
  lemma CharacterIsSpelled(c: char, uppercase: bool)
    ensures var text := EscapedChar(c, uppercase);
      if c in {QUOTE, BACKSLASH, BACKSPACE, FORM_FEED, '\n', '\r', '\t'} then |text| == 2 && text[0] == BACKSLASH
      else if ' ' <= c && c as nat < 0x80 then text == [c]
      else if c as nat < 0x1_0000 then IsUnitEscape(text, uppercase)
      else |text| == 12 && IsUnitEscape(text[..6], uppercase) && IsUnitEscape(text[6..], uppercase)
  {
    hide HexChar;
    if c as nat < 0x1_0000 {
      UnicodeEscapeIsSpelled(c as nat, uppercase);
      UnitEscapesOfPair(c as nat, 0, uppercase);
    } else {
      var high, low := Utf16(c)[0], Utf16(c)[1];
      assert Utf16(c) == [high, low];
      UnitEscapesOfPair(high, low, uppercase);
      UnicodeEscapeIsSpelled(high, uppercase);
      UnicodeEscapeIsSpelled(low, uppercase);
      var first, second := UnicodeEscape(high, uppercase), UnicodeEscape(low, uppercase);
      assert (first + second)[..6] == first && (first + second)[6..] == second;
    }
  }

  /** A backslash, a `u` and four hex digits of one case. */
  predicate IsUnitEscape(text: string, uppercase: bool)
  {
    && |text| == 6 && text[0] == BACKSLASH && text[1] == 'u'
    && forall i | 2 <= i < 6 :: text[i] in if uppercase then UPPER_DIGITS else LOWER_DIGITS
  }

  lemma UnicodeEscapeIsSpelled(unit: Unit, uppercase: bool)
    ensures IsUnitEscape(UnicodeEscape(unit, uppercase), uppercase)
  {
    hide HexChar;
    forall d: nat | d < 16 ensures HexChar(d, uppercase) in if uppercase then UPPER_DIGITS else LOWER_DIGITS {
      DigitOfTable(d, uppercase);
    }
  }

  method Escape(value: string, uppercase: bool) returns (escaped: string)
    ensures escaped == Escaped(value, uppercase)
  {
    hide UnicodeEscape, Utf16;
    escaped := "";
    for i := 0 to |value|
      invariant escaped == Escaped(value[..i], uppercase)
    {
      assert value[..i + 1][..i] == value[..i];
      var c := value[i];
      if c == QUOTE {
        escaped := escaped + [BACKSLASH, QUOTE];
      } else if c == BACKSLASH {
        escaped := escaped + [BACKSLASH, BACKSLASH];
      } else if c == BACKSPACE {
        escaped := escaped + [BACKSLASH, 'b'];
      } else if c == FORM_FEED {
        escaped := escaped + [BACKSLASH, 'f'];
      } else if c == '\n' {
        escaped := escaped + [BACKSLASH, 'n'];
      } else if c == '\r' {
        escaped := escaped + [BACKSLASH, 'r'];
      } else if c == '\t' {
        escaped := escaped + [BACKSLASH, 't'];
      } else if c < ' ' {
        escaped := escaped + UnicodeEscape(c as nat, uppercase);
      } else if c as nat < 0x80 {
        escaped := escaped + [c];
      } else {
        var units := Utf16(c);
        ghost var before := escaped;
        assert before + "" == before && units[0..] == units;
        for k := 0 to |units|
          invariant escaped + UnitEscapes(units[k..], uppercase) == before + UnitEscapes(units, uppercase)
        {
          assert units[k..][1..] == units[k + 1..];
          ghost var group, rest := UnicodeEscape(units[k], uppercase), UnitEscapes(units[k + 1..], uppercase);
          assert (escaped + group) + rest == escaped + (group + rest);
          escaped := escaped + UnicodeEscape(units[k], uppercase);
        }
        assert escaped + "" == escaped;
      }
    }
    assert value[..|value|] == value;
  }

  predicate IsHigh(unit: Unit)
  {
    0xD800 <= unit < 0xDC00
  }

  predicate IsLow(unit: Unit)
  {
    0xDC00 <= unit < 0xE000
  }

  /** The code unit of an escape at the front, when there is one. */
  function ReadUnit(text: string): Option<Unit>
  {
    if |text| < 6 || text[0] != BACKSLASH || text[1] != 'u' then None
    else
      var a, b, c, d := HexValue(text[2]), HexValue(text[3]), HexValue(text[4]), HexValue(text[5]);
      if a.None? || b.None? || c.None? || d.None? then None
      else Some(a.value * 0x1000 + b.value * 0x100 + c.value * 0x10 + d.value)
  }

  function Simple(c: char): Option<char>
  {
    if c == QUOTE || c == BACKSLASH || c == '/' then Some(c)
    else if c == 'b' then Some(BACKSPACE)
    else if c == 'f' then Some(FORM_FEED)
    else if c == 'n' then Some('\n')
    else if c == 'r' then Some('\r')
    else if c == 't' then Some('\t')
    else None
  }

  /** The inside of a JSON string; a surrogate must be half of a pair. */
  function Decoded(text: string): Option<string>
    decreases |text|
  {
    if text == "" then Some("")
    else if text[0] == QUOTE || text[0] < ' ' then None
    else if text[0] != BACKSLASH then Prepend([text[0]], Decoded(text[1..]))
    else if |text| >= 2 && Simple(text[1]).Some? then Prepend([Simple(text[1]).value], Decoded(text[2..]))
    else
      var unit := ReadUnit(text);
      if unit.None? || IsLow(unit.value) then None
      else if !IsHigh(unit.value) then Prepend([unit.value as char], Decoded(text[6..]))
      else
        var second := ReadUnit(text[6..]);
        if second.None? || !IsLow(second.value) then None
        else Prepend([Paired(unit.value, second.value)], Decoded(text[12..]))
  }

  function Paired(high: Unit, low: Unit): char
    requires IsHigh(high) && IsLow(low)
  {
    (0x1_0000 + (high - 0xD800) * 0x400 + (low - 0xDC00)) as char
  }

  lemma HexBack(d: nat, uppercase: bool)
    requires d < 16
    ensures HexValue(HexChar(d, uppercase)) == Some(d)
  {
  }

  lemma HexSplit(unit: Unit)
    ensures unit == (unit / 0x1000) * 0x1000 + (unit / 0x100 % 16) * 0x100 + (unit / 0x10 % 16) * 0x10 + unit % 16
  {
    var byHundreds, byTens := unit / 0x100, unit / 0x10;
    assert byTens / 16 == byHundreds && byHundreds / 16 == unit / 0x1000;
  }

  lemma UnitBack(unit: Unit, uppercase: bool, tail: string)
    ensures ReadUnit(UnicodeEscape(unit, uppercase) + tail) == Some(unit)
    ensures (UnicodeEscape(unit, uppercase) + tail)[6..] == tail
  {
    hide HexChar, HexValue, ReadUnit;
    var a, b, c, d: nat := unit / 0x1000, unit / 0x100 % 16, unit / 0x10 % 16, unit % 16;
    HexSplit(unit);
    FourDigitsBack(a, b, c, d, uppercase, tail);
  }

  lemma FourDigitsBack(a: nat, b: nat, c: nat, d: nat, uppercase: bool, tail: string)
    requires a < 16 && b < 16 && c < 16 && d < 16
    ensures ReadUnit([BACKSLASH, 'u', HexChar(a, uppercase), HexChar(b, uppercase), HexChar(c, uppercase),
      HexChar(d, uppercase)] + tail)
      == Some(a * 0x1000 + b * 0x100 + c * 0x10 + d)
  {
    hide HexChar, HexValue;
    HexBack(a, uppercase);
    HexBack(b, uppercase);
    HexBack(c, uppercase);
    HexBack(d, uppercase);
  }

  /** A `\u` escape of a unit that stands alone. */
  lemma LoneUnitBack(c: char, uppercase: bool, tail: string)
    requires c as nat < 0x1_0000
    ensures Decoded(UnicodeEscape(c as nat, uppercase) + tail) == Prepend([c], Decoded(tail))
  {
    hide HexChar, ReadUnit;
    UnitBack(c as nat, uppercase, tail);
    assert (UnicodeEscape(c as nat, uppercase) + tail)[1] == 'u';
  }

  lemma PairBack(c: char, uppercase: bool, tail: string)
    requires c as nat >= 0x1_0000
    ensures Decoded(UnitEscapes(Utf16(c), uppercase) + tail) == Prepend([c], Decoded(tail))
  {
    hide HexChar, ReadUnit;
    var high, low := Utf16(c)[0], Utf16(c)[1];
    var first, second := UnicodeEscape(high, uppercase), UnicodeEscape(low, uppercase);
    UnitBack(high, uppercase, second + tail);
    UnitBack(low, uppercase, tail);
    UnitEscapesOfPair(high, low, uppercase);
    assert Utf16(c) == [high, low];
    var text := UnitEscapes(Utf16(c), uppercase) + tail;
    assert text == first + (second + tail);
    assert text[1] == 'u' && text[12..] == tail;
    assert Paired(high, low) == c;
  }

  lemma UnitEscapesOfPair(high: Unit, low: Unit, uppercase: bool)
    ensures UnitEscapes([high], uppercase) == UnicodeEscape(high, uppercase)
    ensures UnitEscapes([high, low], uppercase) == UnicodeEscape(high, uppercase) + UnicodeEscape(low, uppercase)
  {
    assert [high, low][1..] == [low];
    assert UnitEscapes([low], uppercase) == UnicodeEscape(low, uppercase) + "";
  }

  /** An escaped character at the front is read back as that character. */
  lemma FirstCharBack(c: char, uppercase: bool, tail: string)
    ensures Decoded(EscapedChar(c, uppercase) + tail) == Prepend([c], Decoded(tail))
  {
    hide UnicodeEscape, ReadUnit, UnitEscapes;
    var text := EscapedChar(c, uppercase) + tail;
    if c == QUOTE || c == BACKSLASH || c == BACKSPACE || c == FORM_FEED || c == '\n' || c == '\r' || c == '\t' {
      assert text[2..] == tail;
    } else if c < ' ' {
      LoneUnitBack(c, uppercase, tail);
    } else if c as nat < 0x80 {
      assert text[1..] == tail;
    } else if c as nat < 0x1_0000 {
      UnitEscapesOfPair(c as nat, 0, uppercase);
      LoneUnitBack(c, uppercase, tail);
    } else {
      PairBack(c, uppercase, tail);
    }
  }

  lemma {:induction false} DecodesBackBefore(value: string, uppercase: bool, tail: string)
    ensures Decoded(Escaped(value, uppercase) + tail) == Prepend(value, Decoded(tail))
    decreases |value|
  {
    hide EscapedChar, Decoded;
    if value == "" {
      assert Escaped(value, uppercase) + tail == tail;
      PrependNothing(Decoded(tail));
    } else {
      var front, last := value[..|value| - 1], value[|value| - 1];
      var group := EscapedChar(last, uppercase);
      assert Escaped(value, uppercase) + tail == Escaped(front, uppercase) + (group + tail);
      DecodesBackBefore(front, uppercase, group + tail);
      FirstCharBack(last, uppercase, tail);
      PrependTwice(front, last, Decoded(tail));
      assert front + [last] == value;
    }
  }

  /** What was escaped reads back as itself, whichever hex case, surrogate pairs included. */
  lemma DecodesBack(value: string, uppercase: bool)
    ensures Decoded(Escaped(value, uppercase)) == Some(value)
  {
    DecodesBackBefore(value, uppercase, "");
    assert Escaped(value, uppercase) + "" == Escaped(value, uppercase);
    assert value + "" == value;
  }

  /** Every `/` of a text, escaped in place. */
  function SlashesEscaped(text: string): string
    decreases |text|
  {
    if text == "" then ""
    else SlashesEscaped(text[..|text| - 1]) + if text[|text| - 1] == '/' then [BACKSLASH, '/'] else [text[|text| - 1]]
  }

  lemma {:induction false} SlashesConcat(a: string, b: string)
    ensures SlashesEscaped(a + b) == SlashesEscaped(a) + SlashesEscaped(b)
    decreases |b|
  {
    if b == "" {
      assert a + b == a;
    } else {
      SlashesConcat(a, b[..|b| - 1]);
      assert (a + b)[..|a + b| - 1] == a + b[..|b| - 1];
    }
  }

  lemma {:induction false} NoSlashNoChange(text: string)
    requires '/' !in text
    ensures SlashesEscaped(text) == text
    decreases |text|
  {
    if text != "" {
      NoSlashNoChange(text[..|text| - 1]);
      assert text == text[..|text| - 1] + [text[|text| - 1]];
    }
  }

  lemma OnlySlashHasSlashes(c: char, uppercase: bool)
    requires c != '/'
    ensures '/' !in EscapedChar(c, uppercase)
  {
    hide HexChar;
    forall d: nat | d < 16 ensures HexChar(d, uppercase) != '/' {
      HexBack(d, uppercase);
    }
    if c as nat >= 0x80 {
      if c as nat < 0x1_0000 {
        UnitEscapesOfPair(c as nat, 0, uppercase);
      } else {
        UnitEscapesOfPair(Utf16(c)[0], Utf16(c)[1], uppercase);
        assert Utf16(c) == [Utf16(c)[0], Utf16(c)[1]];
      }
    }
  }

  lemma {:induction false} SlashesDecodeBackBefore(value: string, uppercase: bool, tail: string)
    ensures Decoded(SlashesEscaped(Escaped(value, uppercase)) + tail) == Prepend(value, Decoded(tail))
    decreases |value|
  {
    hide EscapedChar, Decoded, SlashesEscaped;
    if value == "" {
      NoSlashNoChange("");
      assert SlashesEscaped("") + tail == tail;
      PrependNothing(Decoded(tail));
    } else {
      var front, last := value[..|value| - 1], value[|value| - 1];
      var group := EscapedChar(last, uppercase);
      SlashesConcat(Escaped(front, uppercase), group);
      var slashed := SlashesEscaped(group);
      assert SlashesEscaped(Escaped(value, uppercase)) + tail ==
        SlashesEscaped(Escaped(front, uppercase)) + (slashed + tail);
      SlashesDecodeBackBefore(front, uppercase, slashed + tail);
      FirstSlashedBack(last, uppercase, tail);
      PrependTwice(front, last, Decoded(tail));
      assert front + [last] == value;
    }
  }

  lemma FirstSlashedBack(c: char, uppercase: bool, tail: string)
    ensures Decoded(SlashesEscaped(EscapedChar(c, uppercase)) + tail) == Prepend([c], Decoded(tail))
  {
    hide UnicodeEscape, UnitEscapes, ReadUnit, HexChar;
    if c == '/' {
      var text := [BACKSLASH, '/'] + tail;
      assert "/"[..0] == "";
      assert SlashesEscaped("/") == [BACKSLASH, '/'];
      assert text[2..] == tail;
    } else {
      OnlySlashHasSlashes(c, uppercase);
      NoSlashNoChange(EscapedChar(c, uppercase));
      FirstCharBack(c, uppercase, tail);
    }
  }

  /** Every slash comes out behind a backslash, and nothing else changes: the text grows by one for each. */
  lemma {:induction false} EverySlashIsEscaped(text: string)
    ensures var slashed := SlashesEscaped(text);
      && (forall i :: 0 <= i < |slashed| && slashed[i] == '/' ==> i > 0 && slashed[i - 1] == BACKSLASH)
      && |slashed| == |text| + multiset(text)['/']
    decreases |text|
  {
    if text != "" {
      var front, last := text[..|text| - 1], text[|text| - 1];
      EverySlashIsEscaped(front);
      assert text == front + [last];
    }
  }

  /** Escaping the slashes as well changes nothing about what the text reads back as. */
  lemma SlashesDecodeBack(value: string, uppercase: bool)
    ensures Decoded(SlashesEscaped(Escaped(value, uppercase))) == Some(value)
  {
    SlashesDecodeBackBefore(value, uppercase, "");
    var text := SlashesEscaped(Escaped(value, uppercase));
    assert text + "" == text;
    assert value + "" == value;
  }

  /** Escaped text is ASCII whatever went in. */
  lemma {:induction false} EscapedIsAscii(value: string, uppercase: bool)
    ensures forall c :: c in Escaped(value, uppercase) ==> ' ' <= c && c as nat < 0x80
    decreases |value|
  {
    hide EscapedChar;
    if value != "" {
      EscapedIsAscii(value[..|value| - 1], uppercase);
      EscapedCharIsAscii(value[|value| - 1], uppercase);
    }
  }

  lemma UnicodeEscapeIsAscii(unit: Unit, uppercase: bool)
    ensures forall x :: x in UnicodeEscape(unit, uppercase) ==> ' ' <= x && x as nat < 0x80
  {
    hide HexChar;
    forall d: nat | d < 16 ensures ' ' <= HexChar(d, uppercase) && HexChar(d, uppercase) as nat < 0x80 {
      HexBack(d, uppercase);
    }
  }

  lemma EscapedCharIsAscii(c: char, uppercase: bool)
    ensures forall x :: x in EscapedChar(c, uppercase) ==> ' ' <= x && x as nat < 0x80
  {
    hide UnicodeEscape, UnitEscapes;
    if c as nat < 0x1_0000 {
      UnicodeEscapeIsAscii(c as nat, uppercase);
      UnitEscapesOfPair(c as nat, 0, uppercase);
    } else {
      var high, low := Utf16(c)[0], Utf16(c)[1];
      assert Utf16(c) == [high, low];
      UnitEscapesOfPair(high, low, uppercase);
      UnicodeEscapeIsAscii(high, uppercase);
      UnicodeEscapeIsAscii(low, uppercase);
    }
  }
}
