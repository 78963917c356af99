/** String serialization, section 3.2.2.2 of RFC 8785
    (`gateway-config/src/canonical_json.rs`, `write_string`). */
module JsonText {
  import opened Bytes
  import opened Results
  import opened Utf8

  const QUOTE: Byte := 0x22

  type Text = seq<Scalar>

  /** The buffer the encoder appends to: the source's `&mut Vec<u8>`. */
  class Output {
    var bytes: ByteString

    constructor ()
      ensures bytes == []
    {
      bytes := [];
    }
  }

  function HexDigit(n: int): Byte
    requires 0 <= n < 16
  {
    if n < 10 then 0x30 + n else 0x57 + n
  }

  /** One character as ECMAScript's `JSON.stringify` writes it. */
  function EscapeChar(c: Scalar): ByteString {
    if c == 0x22 then [BACKSLASH, 0x22]
    else if c == 0x5C then [BACKSLASH, BACKSLASH]
    else if c == 0x08 then [BACKSLASH, 0x62]
    else if c == 0x09 then [BACKSLASH, 0x74]
    else if c == 0x0A then [BACKSLASH, 0x6E]
    else if c == 0x0C then [BACKSLASH, 0x66]
    else if c == 0x0D then [BACKSLASH, 0x72]
    else if c < 0x20 then [BACKSLASH, 0x75, 0x30, 0x30, HexDigit(c / 16), HexDigit(c % 16)]
    else Encode(c)
  }

  function EscapeText(text: Text): ByteString {
    if text == [] then [] else EscapeChar(text[0]) + EscapeText(text[1..])
  }

  function Quoted(text: Text): ByteString {
    [QUOTE] + EscapeText(text) + [QUOTE]
  }

  // Reading a string, section 7 of RFC 8259.

  const LETTER_U: Byte := 0x75

  /** Four hexadecimal digits, or -1. */
  function ReadHex4(s: ByteString): (n: int)
    ensures -1 <= n < 0x1_0000
    ensures n >= 0 ==> |s| >= 4
  {
    if |s| < 4 || !IsHexDigit(s[0]) || !IsHexDigit(s[1]) || !IsHexDigit(s[2]) || !IsHexDigit(s[3]) then -1
    else ((HexValue(s[0]) * 16 + HexValue(s[1])) * 16 + HexValue(s[2])) * 16 + HexValue(s[3])
  }

  /** A `\u` escape, or two that are a surrogate pair. */
  function ReadUnicode(s: ByteString): (r: Decoded)
    requires |s| >= 2
    ensures r.Decoded? ==> 1 <= r.width <= |s|
  {
    var high := ReadHex4(s[2..]);
    if high < 0 then Malformed
    else if !(0xD800 <= high < 0xE000) then Decoded(high, 6)
    else if high < 0xDC00 && |s| >= 8 && s[6] == BACKSLASH && s[7] == LETTER_U && 0xDC00 <= ReadHex4(s[8..]) < 0xE000
    then Decoded(0x1_0000 + (high - 0xD800) * 0x400 + (ReadHex4(s[8..]) - 0xDC00), 12)
    else Malformed
  }

  /** The character a string's text starts with; `Malformed` at the closing quote. */
  function UnescapeFirst(s: ByteString): (r: Decoded)
    ensures r.Decoded? ==> 1 <= r.width <= |s|
  {
    if s == [] || s[0] == QUOTE || s[0] < 0x20 then Malformed
    else if s[0] != BACKSLASH then DecodeFirst(s)
    else if |s| < 2 then Malformed
    else if s[1] == QUOTE || s[1] == BACKSLASH || s[1] == SLASH then Decoded(s[1], 2)
    else if s[1] == 0x62 then Decoded(0x08, 2)
    else if s[1] == 0x74 then Decoded(0x09, 2)
    else if s[1] == 0x6E then Decoded(0x0A, 2)
    else if s[1] == 0x66 then Decoded(0x0C, 2)
    else if s[1] == 0x72 then Decoded(0x0D, 2)
    else if s[1] == LETTER_U then ReadUnicode(s)
    else Malformed
  }

  /** A text up to its closing quote, and what follows that. */
  function ReadText(s: ByteString): (r: Option<(Text, ByteString)>)
    ensures r.Some? ==> |r.value.1| < |s|
    decreases |s|
  {
    if s != [] && s[0] == QUOTE then Some(([], s[1..]))
    else
      var first := UnescapeFirst(s);
      if first.Malformed? then None
      else
        match ReadText(s[first.width..])
        case None => None
        case Some((text, rest)) => Some(([first.scalar] + text, rest))
  }

  /** An escaped character reads back as itself, whatever follows. */
  lemma UnescapeAfterEscape(c: Scalar, rest: ByteString)
    ensures UnescapeFirst(EscapeChar(c) + rest) == Decoded(c, |EscapeChar(c)|)
  {
    var e, s := EscapeChar(c), EscapeChar(c) + rest;
    assert forall i :: 0 <= i < |e| ==> s[i] == e[i];
    if c >= 0x20 && c != 0x22 && c != 0x5C {
      DecodeAfterEncode(c, rest);
      assert s[0] == Encode(c)[0];
    } else if |e| == 6 {
      HexAfterEscape(c, s);
    }
  }

  lemma HexAfterEscape(c: int, s: ByteString)
    requires 0 <= c < 0x20 && |s| >= 6
    requires s[2] == 0x30 && s[3] == 0x30 && s[4] == HexDigit(c / 16) && s[5] == HexDigit(c % 16)
    ensures ReadUnicode(s) == Decoded(c, 6)
  {
    assert HexValue(s[4]) == c / 16 && HexValue(s[5]) == c % 16;
    assert c / 16 * 16 + c % 16 == c;
    assert ReadHex4(s[2..]) == c;
  }

  // What is written is the shortest that reads back.

  const ESCAPED: string := "\"\\/bfnrt"
  const MEANT: string := "\"\\/\U{08}\U{0C}\n\r\t"

  /** The two-character escapes of section 7 of RFC 8259. */
  lemma ShortEscapes(s: ByteString)
    requires |s| >= 2 && s[0] == '\\' as int && s[1] != 'u' as int
    ensures forall k :: 0 <= k < 8 && s[1] == ESCAPED[k] as int ==> UnescapeFirst(s) == Decoded(MEANT[k] as int, 2)
    ensures (forall k :: 0 <= k < 8 ==> s[1] != ESCAPED[k] as int) ==> UnescapeFirst(s) == Malformed
  {
    assert ESCAPED[0] as int == 0x22 && ESCAPED[1] as int == 0x5C && ESCAPED[2] as int == 0x2F;
    assert ESCAPED[3] as int == 0x62 && ESCAPED[4] as int == 0x66 && ESCAPED[5] as int == 0x6E;
    assert ESCAPED[6] as int == 0x72 && ESCAPED[7] as int == 0x74;
  }

  /** No other form of a character is shorter. */
  lemma EscapeIsShortest(c: Scalar, w: ByteString)
    requires UnescapeFirst(w) == Decoded(c, |w|)
    ensures |EscapeChar(c)| <= |w|
  {
    if w[0] != BACKSLASH {
      EncodeAfterDecode(w);
      assert w[..|w|] == w;
    }
  }

  /** Four hexadecimal digits without a capital. */
  predicate IsLowerHex(w: ByteString) {
    |w| >= 6 && forall i :: 2 <= i < 6 ==> !('A' as int <= w[i] <= 'F' as int)
  }

  /** The shortest form, with small hexadecimal digits, is the one written. */
  lemma EscapeIsCanonical(c: Scalar, w: ByteString)
    ensures w == EscapeChar(c) <==>
            && UnescapeFirst(w) == Decoded(c, |w|)
            && (forall v :: UnescapeFirst(v) == Decoded(c, |v|) ==> |w| <= |v|)
            && (|w| >= 6 ==> IsLowerHex(w))
  {
    hide EscapeChar, UnescapeFirst;
    var e := EscapeChar(c);
    UnescapeAfterEscape(c, []);
    assert e + [] == e;
    forall v | UnescapeFirst(v) == Decoded(c, |v|) ensures |e| <= |v| {
      EscapeIsShortest(c, v);
    }
    EscapeIsLower(c);
    if UnescapeFirst(w) == Decoded(c, |w|) && |w| == |e| && (|w| >= 6 ==> IsLowerHex(w)) {
      EscapeIsOnly(c, w);
    }
  }

  lemma EscapeIsLower(c: Scalar)
    ensures |EscapeChar(c)| >= 6 ==> IsLowerHex(EscapeChar(c))
  {
  }

  lemma EscapeIsOnly(c: Scalar, w: ByteString)
    requires UnescapeFirst(w) == Decoded(c, |w|) && |w| == |EscapeChar(c)| && (|w| >= 6 ==> IsLowerHex(w))
    ensures w == EscapeChar(c)
  {
    if w[0] != BACKSLASH {
      EncodeAfterDecode(w);
      assert w[..|w|] == w;
    } else if |w| == 6 {
      assert w == [w[0], w[1], w[2], w[3], w[4], w[5]];
      HexIsOnly(c, w);
    } else {
      assert w == [w[0], w[1]];
    }
  }

  lemma HexIsOnly(c: Scalar, w: ByteString)
    requires |w| == 6 && ReadHex4(w[2..]) == c < 0x20 && IsLowerHex(w)
    ensures w[2] == w[3] == 0x30 && w[4] == HexDigit(c / 16) && w[5] == HexDigit(c % 16)
  {
    var h, i, j, k := HexValue(w[2]), HexValue(w[3]), HexValue(w[4]), HexValue(w[5]);
    assert c == ((h * 16 + i) * 16 + j) * 16 + k;
    assert h == 0 && i == 0 && j == c / 16 && k == c % 16;
  }

  /** A character that need not be escaped is its UTF-8 form. */
  lemma UnescapedIsUtf8(c: Scalar)
    ensures EscapeChar(c) == Encode(c) <==> c >= ' ' as int && c != '"' as int && c != '\\' as int
  {
  }

  /** The bytes say whether the text is over and otherwise what it starts with. */
  lemma FirstCharacter(text: Text, rest: ByteString)
    ensures var s := EscapeText(text) + [QUOTE] + rest;
            if text == [] then UnescapeFirst(s) == Malformed
            else && UnescapeFirst(s) == Decoded(text[0], |EscapeChar(text[0])|)
                 && s[|EscapeChar(text[0])|..] == EscapeText(text[1..]) + [QUOTE] + rest
  {
    hide EscapeChar;
    var s := EscapeText(text) + [QUOTE] + rest;
    if text == [] {
      assert s[0] == QUOTE;
    } else {
      var tail := EscapeText(text[1..]) + [QUOTE] + rest;
      assert s == EscapeChar(text[0]) + tail;
      UnescapeAfterEscape(text[0], tail);
    }
  }

  /** A quoted text, after its opening quote, reads back as itself. */
  lemma {:induction false} ReadsQuoted(text: Text, rest: ByteString)
    ensures ReadText(EscapeText(text) + [QUOTE] + rest) == Some((text, rest))
    decreases |text|
  {
    hide EscapeChar, UnescapeFirst;
    var s := EscapeText(text) + [QUOTE] + rest;
    FirstCharacter(text, rest);
    if text == [] {
      assert s[0] == QUOTE && s[1..] == rest;
    } else {
      ReadsQuoted(text[1..], rest);
      QuoteIsNoFirst(s);
      assert text == [text[0]] + text[1..];
    }
  }

  lemma QuoteIsNoFirst(s: ByteString)
    requires UnescapeFirst(s).Decoded?
    ensures s != [] && s[0] != QUOTE
  {
  }

  /** Strings are uniquely decodable: equal bytes mean equal characters. */
  lemma QuotedUnique(a: Text, b: Text, restA: ByteString, restB: ByteString)
    requires Quoted(a) + restA == Quoted(b) + restB
    ensures a == b && restA == restB
  {
    var s := Quoted(a) + restA;
    assert s[1..] == EscapeText(a) + [QUOTE] + restA;
    assert s[1..] == EscapeText(b) + [QUOTE] + restB;
    ReadsQuoted(a, restA);
    ReadsQuoted(b, restB);
  }

  lemma EscapeStep(text: Text, i: nat)
    requires i < |text|
    ensures EscapeText(text[i..]) == EscapeChar(text[i]) + EscapeText(text[i + 1..])
  {
    assert text[i..][1..] == text[i + 1..];
  }

  /** `write_string`: appends the quoted text. */
  method WriteString(text: Text, out: Output)
    modifies out
    ensures out.bytes == old(out.bytes) + Quoted(text)
  {
    hide EscapeChar;
    out.bytes := out.bytes + [QUOTE];
    ghost var total := old(out.bytes) + [QUOTE] + EscapeText(text);
    assert text[0..] == text;
    for i := 0 to |text|
      invariant out.bytes + EscapeText(text[i..]) == total
    {
      EscapeStep(text, i);
      ghost var before := out.bytes;
      out.bytes := out.bytes + EscapeChar(text[i]);
      assert out.bytes + EscapeText(text[i + 1..]) == before + EscapeText(text[i..]);
    }
    assert EscapeText(text[|text|..]) == [];
    assert out.bytes == total;
    out.bytes := out.bytes + [QUOTE];
    assert total + [QUOTE] == old(out.bytes) + Quoted(text);
  }
}
