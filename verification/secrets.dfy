/** Known secrets, the forms a secret can be written in, and the test that keeps them out of bytes and paths. */
module Secrets {
  import opened Options
  import opened Bytes
  import Base64
  import Percent
  import JsonEscapes

  const LONG_ENOUGH: nat := 8
  const QUOTE: bv8 := 34

  datatype Secret = Secret(name: string, value: Bytes)

  /** What the standard libraries supply: UTF-8 reading, and the inside of a JSON string as serde writes it. */
  datatype Library = Library(text: Bytes -> Option<string>, jsonInside: string -> Bytes)

  /** Values shorter than eight characters are flags; what is not text counts by bytes. */
  predicate IsLongEnough(lib: Library, value: Bytes)
  {
    var text := lib.text(value);
    if text.Some? then |text.value| >= LONG_ENOUGH else |value| >= LONG_ENOUGH
  }

  function AsciiBytes(text: string): Bytes
    requires forall c :: c in text ==> c as nat < 0x80
  {
    seq(|text|, i requires 0 <= i < |text| => assert text[i] in text; (text[i] as nat) as bv8)
  }

  function EscapedBytes(text: string, uppercase: bool): Bytes
  {
    JsonEscapes.EscapedIsAscii(text, uppercase);
    AsciiBytes(JsonEscapes.Escaped(text, uppercase))
  }

  function SlashedBytes(text: string): Bytes
  {
    SlashedIsAscii(JsonEscapes.Escaped(text, false), text);
    AsciiBytes(JsonEscapes.SlashesEscaped(JsonEscapes.Escaped(text, false)))
  }

  lemma SlashedIsAscii(escaped: string, text: string)
    requires escaped == JsonEscapes.Escaped(text, false)
    ensures forall c :: c in JsonEscapes.SlashesEscaped(escaped) ==> c as nat < 0x80
  {
    JsonEscapes.EscapedIsAscii(text, false);
    SlashesKeepAscii(escaped);
  }

  lemma {:induction false} SlashesKeepAscii(text: string)
    requires forall c :: c in text ==> c as nat < 0x80
    ensures forall c :: c in JsonEscapes.SlashesEscaped(text) ==> c as nat < 0x80
    decreases |text|
  {
    if text != "" {
      var front, last := text[..|text| - 1], text[|text| - 1];
      assert text == front + [last];
      assert forall c :: c in front ==> c in text;
      SlashesKeepAscii(front);
      var tail := if last == '/' then [JsonEscapes.BACKSLASH, '/'] else [last];
      assert JsonEscapes.BACKSLASH as nat < 0x80;
      assert last in text;
      assert JsonEscapes.SlashesEscaped(text) == JsonEscapes.SlashesEscaped(front) + tail;
    }
  }

  function Quoted(inside: Bytes): Bytes
  {
    [QUOTE] + inside + [QUOTE]
  }

  function UrlForms(value: Bytes): seq<Bytes>
  {
    [Percent.Encoded(value, Percent.Form, false), Percent.Encoded(value, Percent.Form, true),
     Percent.Encoded(value, Percent.Component, false), Percent.Encoded(value, Percent.Component, true),
     Percent.Encoded(value, Percent.StrictComponent, false), Percent.Encoded(value, Percent.StrictComponent, true),
     Percent.Encoded(value, Percent.Full, false), Percent.Encoded(value, Percent.Full, true)]
  }

  function Base64Forms(value: Bytes): seq<Bytes>
  {
    [Base64.Encoded(value, Base64.Standard, true), Base64.Encoded(value, Base64.Standard, false),
     Base64.Encoded(value, Base64.UrlSafe, true), Base64.Encoded(value, Base64.UrlSafe, false)]
  }

  function JsonForms(lib: Library, text: string): seq<Bytes>
  {
    [Quoted(lib.jsonInside(text)), lib.jsonInside(text),
     EscapedBytes(text, false), Quoted(EscapedBytes(text, false)), SlashedBytes(text), EscapedBytes(text, true)]
  }

  function Forms(lib: Library, secret: Secret): seq<Bytes>
  {
    var text := lib.text(secret.value);
    [secret.value] + UrlForms(secret.value) + Base64Forms(secret.value)
    + if text.Some? then JsonForms(lib, text.value) else []
  }

  predicate OccursAt(haystack: Bytes, needle: Bytes, i: nat)
  {
    i + |needle| <= |haystack| && haystack[i..i + |needle|] == needle
  }

  /** The empty needle is found nowhere. */
  predicate Contains(haystack: Bytes, needle: Bytes)
  {
    needle != [] && exists i | 0 <= i <= |haystack| :: OccursAt(haystack, needle, i)
  }

  /** No form of the secret is anywhere in the bytes. */
  predicate FreeOf(lib: Library, bytes: Bytes, secret: Secret)
  {
    forall form :: form in Forms(lib, secret) ==> !Contains(bytes, form)
  }

  predicate Clean(lib: Library, path: Bytes, bytes: Bytes, secrets: seq<Secret>)
  {
    forall k | 0 <= k < |secrets| :: FreeOf(lib, bytes, secrets[k]) && FreeOf(lib, path, secrets[k])
  }

  /** Refuses at the first secret with a form in the bytes or in the path, and names it. */
  method RefuseIfSecret(lib: Library, path: Bytes, bytes: Bytes, secrets: seq<Secret>) returns (refused: Option<Secret>)
    ensures refused.None? <==> Clean(lib, path, bytes, secrets)
    ensures refused.Some? ==> exists i ::
      && 0 <= i < |secrets| && secrets[i] == refused.value
      && !(FreeOf(lib, bytes, secrets[i]) && FreeOf(lib, path, secrets[i]))
      && forall k | 0 <= k < i :: FreeOf(lib, bytes, secrets[k]) && FreeOf(lib, path, secrets[k])
  {
    hide FreeOf;
    for i := 0 to |secrets|
      invariant forall k | 0 <= k < i :: FreeOf(lib, bytes, secrets[k]) && FreeOf(lib, path, secrets[k])
    {
      if !FreeOf(lib, bytes, secrets[i]) || !FreeOf(lib, path, secrets[i]) {
        return Some(secrets[i]);
      }
    }
    refused := None;
  }

  /** The bytes are one of the spellings the writer looks for. */
  ghost predicate IsForm(lib: Library, bytes: Bytes, secret: Secret)
  {
    || bytes == secret.value
    || IsUrlForm(bytes, secret.value)
    || IsBase64Form(bytes, secret.value)
    || (lib.text(secret.value).Some? && IsJsonForm(lib, bytes, lib.text(secret.value).value))
  }

  ghost predicate IsUrlForm(bytes: Bytes, value: Bytes)
  {
    exists flavor, lowercase :: bytes == Percent.Encoded(value, flavor, lowercase)
  }

  ghost predicate IsBase64Form(bytes: Bytes, value: Bytes)
  {
    exists alphabet, padding :: bytes == Base64.Encoded(value, alphabet, padding)
  }

  ghost predicate IsJsonForm(lib: Library, bytes: Bytes, text: string)
  {
    || bytes == lib.jsonInside(text)
    || bytes == Quoted(lib.jsonInside(text))
    || bytes == EscapedBytes(text, true)
    || bytes == EscapedBytes(text, false)
    || bytes == Quoted(EscapedBytes(text, false))
    || bytes == SlashedBytes(text)
  }

  lemma JsonFormsAre(lib: Library, text: string, bytes: Bytes)
    ensures bytes in JsonForms(lib, text) <==> IsJsonForm(lib, bytes, text)
  {
    hide EscapedBytes, SlashedBytes, Quoted;
    var forms := JsonForms(lib, text);
    assert forms[0] == Quoted(lib.jsonInside(text)) && forms[1] == lib.jsonInside(text)
      && forms[2] == EscapedBytes(text, false) && forms[3] == Quoted(EscapedBytes(text, false))
      && forms[4] == SlashedBytes(text) && forms[5] == EscapedBytes(text, true);
  }

  lemma UrlFormsAre(value: Bytes, bytes: Bytes)
    ensures bytes in UrlForms(value) <==> IsUrlForm(bytes, value)
  {
    forall flavor, lowercase | bytes == Percent.Encoded(value, flavor, lowercase) ensures bytes in UrlForms(value) {
      var k := (match flavor case Form => 0 case Component => 2 case StrictComponent => 4 case Full => 6)
        + if lowercase then 1 else 0;
      assert UrlForms(value)[k] == Percent.Encoded(value, flavor, lowercase);
    }
    if bytes in UrlForms(value) {
      var k :| 0 <= k < |UrlForms(value)| && UrlForms(value)[k] == bytes;
      var flavor := if k < 2 then Percent.Form else if k < 4 then Percent.Component
        else if k < 6 then Percent.StrictComponent else Percent.Full;
      assert bytes == Percent.Encoded(value, flavor, k % 2 == 1);
    }
  }

  lemma Base64FormsAre(value: Bytes, bytes: Bytes)
    ensures bytes in Base64Forms(value) <==> IsBase64Form(bytes, value)
  {
    forall alphabet, padding | bytes == Base64.Encoded(value, alphabet, padding) ensures bytes in Base64Forms(value) {
      var k := (if alphabet.Standard? then 0 else 2) + if padding then 0 else 1;
      assert Base64Forms(value)[k] == Base64.Encoded(value, alphabet, padding);
    }
    if bytes in Base64Forms(value) {
      var k :| 0 <= k < |Base64Forms(value)| && Base64Forms(value)[k] == bytes;
      assert bytes == Base64.Encoded(value, if k < 2 then Base64.Standard else Base64.UrlSafe, k % 2 == 0);
    }
  }

  lemma FormsAre(lib: Library, secret: Secret, bytes: Bytes)
    ensures bytes in Forms(lib, secret) <==> IsForm(lib, bytes, secret)
  {
    hide UrlForms, Base64Forms, JsonForms, IsJsonForm, IsUrlForm, IsBase64Form;
    UrlFormsAre(secret.value, bytes);
    Base64FormsAre(secret.value, bytes);
    var text := lib.text(secret.value);
    if text.Some? {
      JsonFormsAre(lib, text.value, bytes);
    }
    var json := if text.Some? then JsonForms(lib, text.value) else [];
    assert bytes in Forms(lib, secret) <==>
      bytes == secret.value || bytes in UrlForms(secret.value) || bytes in Base64Forms(secret.value) || bytes in json;
  }

  /** Bytes pass exactly when no piece of them is one of those spellings; the empty piece never counts. */
  lemma FreeOfExactly(lib: Library, bytes: Bytes, secret: Secret)
    ensures FreeOf(lib, bytes, secret) <==>
      forall lo, hi | 0 <= lo < hi <= |bytes| :: !IsForm(lib, bytes[lo..hi], secret)
  {
    hide Forms, IsForm;
    if FreeOf(lib, bytes, secret) {
      forall lo, hi | 0 <= lo < hi <= |bytes| ensures !IsForm(lib, bytes[lo..hi], secret) {
        FormsAre(lib, secret, bytes[lo..hi]);
        assert OccursAt(bytes, bytes[lo..hi], lo);
      }
    } else {
      var form :| form in Forms(lib, secret) && Contains(bytes, form);
      var lo :| 0 <= lo <= |bytes| && OccursAt(bytes, form, lo);
      FormsAre(lib, secret, form);
      assert bytes[lo..lo + |form|] == form;
    }
  }

  lemma SliceOfSlice(s: Bytes, lo: nat, hi: nat, i: nat, j: nat)
    requires lo <= hi <= |s| && i <= j <= hi - lo
    ensures s[lo..hi][i..j] == s[lo + i..lo + j]
  {
    var piece, straight := s[lo..hi][i..j], s[lo + i..lo + j];
    assert |piece| == |straight|;
    assert forall k | 0 <= k < |piece| :: piece[k] == straight[k];
  }

  lemma ContainsInPiece(haystack: Bytes, lo: nat, hi: nat, needle: Bytes)
    requires lo <= hi <= |haystack| && Contains(haystack[lo..hi], needle)
    ensures Contains(haystack, needle)
  {
    var i :| 0 <= i <= hi - lo && OccursAt(haystack[lo..hi], needle, i);
    assert haystack[lo..hi][i..i + |needle|] == haystack[lo + i..lo + i + |needle|] by {
      SliceOfSlice(haystack, lo, hi, i, i + |needle|);
    }
    assert OccursAt(haystack, needle, lo + i);
  }

  /** A piece of clean bytes is clean: a torn write leaves nothing a whole one would not. */
  lemma PieceIsClean(lib: Library, path: Bytes, bytes: Bytes, lo: nat, hi: nat, secrets: seq<Secret>)
    requires lo <= hi <= |bytes| && Clean(lib, path, bytes, secrets)
    ensures Clean(lib, path, bytes[lo..hi], secrets)
  {
    forall k, form | 0 <= k < |secrets| && form in Forms(lib, secrets[k]) ensures !Contains(bytes[lo..hi], form) {
      assert FreeOf(lib, bytes, secrets[k]);
      if Contains(bytes[lo..hi], form) {
        ContainsInPiece(bytes, lo, hi, form);
      }
    }
  }

  /** Anything that reads back as a secret is kept out of bytes free of it, wherever it is cut from. */
  lemma NoPieceReadsAsASecret(lib: Library, bytes: Bytes, secret: Secret, lo: nat, hi: nat)
    requires FreeOf(lib, bytes, secret) && secret.value != []
    requires lo <= hi <= |bytes|
    ensures bytes[lo..hi] != secret.value
    ensures forall alphabet, padding :: Base64.Decoded(bytes[lo..hi], alphabet, padding) != Some(secret.value)
    ensures forall flavor, lowercase :: bytes[lo..hi] != Percent.Encoded(secret.value, flavor, lowercase)
  {
    hide Forms;
    var piece := bytes[lo..hi];
    RawAndUrlForms(lib, secret);
    NoPieceIsAForm(lib, bytes, secret, lo, hi, secret.value);
    forall flavor, lowercase ensures piece != Percent.Encoded(secret.value, flavor, lowercase) {
      NoPieceIsAForm(lib, bytes, secret, lo, hi, Percent.Encoded(secret.value, flavor, lowercase));
      Percent.DecodesBack(secret.value, flavor, lowercase);
    }
    forall alphabet, padding ensures Base64.Decoded(piece, alphabet, padding) != Some(secret.value) {
      if Base64.Decoded(piece, alphabet, padding) == Some(secret.value) {
        Base64.OnlyTheEncodingDecodes(piece, alphabet, padding);
        Base64FormsOf(lib, secret, alphabet, padding);
        NoPieceIsAForm(lib, bytes, secret, lo, hi, piece);
        assert false;
      }
    }
  }

  lemma NoPieceIsAForm(lib: Library, bytes: Bytes, secret: Secret, lo: nat, hi: nat, form: Bytes)
    requires FreeOf(lib, bytes, secret) && form in Forms(lib, secret)
    requires lo <= hi <= |bytes|
    ensures bytes[lo..hi] == form ==> form == []
  {
    if bytes[lo..hi] == form && form != [] {
      assert OccursAt(bytes, form, lo);
    }
  }

  lemma RawAndUrlForms(lib: Library, secret: Secret)
    ensures secret.value in Forms(lib, secret)
    ensures forall flavor, lowercase :: Percent.Encoded(secret.value, flavor, lowercase) in Forms(lib, secret)
  {
    hide Forms, UrlForms;
    FormsAre(lib, secret, secret.value);
    forall flavor, lowercase ensures Percent.Encoded(secret.value, flavor, lowercase) in Forms(lib, secret) {
      FormsAre(lib, secret, Percent.Encoded(secret.value, flavor, lowercase));
    }
  }

  lemma Base64FormsOf(lib: Library, secret: Secret, alphabet: Base64.Alphabet, padding: bool)
    ensures Base64.Encoded(secret.value, alphabet, padding) in Forms(lib, secret)
  {
    FormsAre(lib, secret, Base64.Encoded(secret.value, alphabet, padding));
  }

  /** The same for the JSON escapes of a secret that is text. */
  lemma NoPieceIsAJsonEscape(lib: Library, bytes: Bytes, secret: Secret, lo: nat, hi: nat)
    requires FreeOf(lib, bytes, secret)
    requires lib.text(secret.value).Some? && lib.text(secret.value).value != ""
    requires lo <= hi <= |bytes|
    ensures var text := lib.text(secret.value).value;
      && (forall uppercase :: bytes[lo..hi] != EscapedBytes(text, uppercase))
      && (forall uppercase :: bytes[lo..hi] != Quoted(EscapedBytes(text, uppercase)))
      && bytes[lo..hi] != SlashedBytes(text)
      && bytes[lo..hi] != Quoted(lib.jsonInside(text))
      && (lib.jsonInside(text) != [] ==> bytes[lo..hi] != lib.jsonInside(text))
  {
    hide Forms, EscapedBytes, SlashedBytes;
    var text := lib.text(secret.value).value;
    JsonFormsOf(lib, secret, text);
    EscapesAreNotEmpty(text);
    forall uppercase ensures bytes[lo..hi] != EscapedBytes(text, uppercase) {
      NoPieceIsAForm(lib, bytes, secret, lo, hi, EscapedBytes(text, uppercase));
    }
    forall uppercase ensures bytes[lo..hi] != Quoted(EscapedBytes(text, uppercase)) {
      if bytes[lo..hi] == Quoted(EscapedBytes(text, uppercase)) {
        InsideTheQuotes(bytes, lo, hi, EscapedBytes(text, uppercase));
        NoPieceIsAForm(lib, bytes, secret, lo + 1, hi - 1, EscapedBytes(text, uppercase));
        assert false;
      }
    }
    NoPieceIsAForm(lib, bytes, secret, lo, hi, lib.jsonInside(text));
    NoPieceIsAForm(lib, bytes, secret, lo, hi, SlashedBytes(text));
    NoPieceIsAForm(lib, bytes, secret, lo, hi, Quoted(lib.jsonInside(text)));
  }

  lemma InsideTheQuotes(bytes: Bytes, lo: nat, hi: nat, inside: Bytes)
    requires lo <= hi <= |bytes| && bytes[lo..hi] == Quoted(inside)
    ensures lo + 1 <= hi - 1 && bytes[lo + 1..hi - 1] == inside
  {
    assert hi - lo == |inside| + 2;
    SliceOfSlice(bytes, lo, hi, 1, |inside| + 1);
    assert Quoted(inside)[1..|inside| + 1] == inside;
  }

  lemma EscapesAreNotEmpty(text: string)
    requires text != ""
    ensures forall uppercase :: EscapedBytes(text, uppercase) != []
    ensures SlashedBytes(text) != []
  {
    forall uppercase ensures EscapedBytes(text, uppercase) != [] {
      JsonEscapes.DecodesBack(text, uppercase);
    }
    JsonEscapes.SlashesDecodeBack(text, false);
  }

  lemma JsonFormsOf(lib: Library, secret: Secret, text: string)
    requires lib.text(secret.value) == Some(text)
    ensures forall uppercase :: EscapedBytes(text, uppercase) in Forms(lib, secret)
    ensures SlashedBytes(text) in Forms(lib, secret)
    ensures Quoted(lib.jsonInside(text)) in Forms(lib, secret) && lib.jsonInside(text) in Forms(lib, secret)
  {
    hide Forms, EscapedBytes, SlashedBytes, Quoted;
    forall uppercase ensures EscapedBytes(text, uppercase) in Forms(lib, secret) {
      FormsAre(lib, secret, EscapedBytes(text, uppercase));
    }
    FormsAre(lib, secret, SlashedBytes(text));
    FormsAre(lib, secret, Quoted(lib.jsonInside(text)));
    FormsAre(lib, secret, lib.jsonInside(text));
  }

  /** The bytes are a JSON form of a text. */
  ghost predicate IsJsonOf(lib: Library, bytes: Bytes, text: string)
  {
    || (exists uppercase :: bytes == EscapedBytes(text, uppercase))
    || (exists uppercase :: bytes == Quoted(EscapedBytes(text, uppercase)))
    || bytes == SlashedBytes(text)
    || bytes == Quoted(lib.jsonInside(text))
    || (lib.jsonInside(text) != [] && bytes == lib.jsonInside(text))
  }

  /** The bytes give the secret away: raw, in base64, percent encoded, or as JSON when it is text. */
  ghost predicate ReadsAs(lib: Library, bytes: Bytes, secret: Secret)
  {
    || bytes == secret.value
    || (exists alphabet, padding :: Base64.Decoded(bytes, alphabet, padding) == Some(secret.value))
    || (exists flavor, lowercase :: bytes == Percent.Encoded(secret.value, flavor, lowercase))
    || (lib.text(secret.value).Some? && lib.text(secret.value).value != ""
        && IsJsonOf(lib, bytes, lib.text(secret.value).value))
  }

  /** Bytes free of a secret have no piece that gives it away. */
  lemma NothingReadsAsTheSecret(lib: Library, bytes: Bytes, secret: Secret, lo: nat, hi: nat)
    requires FreeOf(lib, bytes, secret) && secret.value != []
    requires lo <= hi <= |bytes|
    ensures !ReadsAs(lib, bytes[lo..hi], secret)
  {
    hide FreeOf, EscapedBytes, SlashedBytes, Quoted;
    NoPieceReadsAsASecret(lib, bytes, secret, lo, hi);
    var text := lib.text(secret.value);
    if text.Some? && text.value != "" {
      NoPieceIsAJsonEscape(lib, bytes, secret, lo, hi);
    }
  }
}
