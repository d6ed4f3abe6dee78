/** The display encoder of src/core/displayencoder.cpp over the tokeniser of src/core/charutil.cpp, in a locale of
    single-byte characters. */
module DisplayEncoder {
  import opened Bytes
  import opened CodeConvert
  import opened Wrappers

  const ESCAPE: byte := 92 // backslash
  const QUOTE: byte := 34
  const HEX: byte := 120 // x

  datatype Flags = Flags(roundTrip: bool, allowWhiteSpace: bool)

  datatype CharEncoder = NonNarrowable | NonPrintable(allowWS: bool) | Backslash | Quote {

    function Identifier(): byte {
      match this case NonNarrowable => HEX case NonPrintable(_) => HEX case Backslash => ESCAPE case Quote => QUOTE
    }

    predicate NeedsEncoding(isprint: byte -> bool, c: byte) {
      match this
      case NonNarrowable => false
      case NonPrintable(allowWS) => !(allowWS && IsWhiteSpace(c)) && !isprint(c)
      case Backslash => c == ESCAPE
      case Quote => c == QUOTE
    }

    function EncodeRoundtrip(c: byte): seq<byte> {
      match this
      case NonNarrowable => [ESCAPE, HEX] + CharToHex(c)
      case NonPrintable(_) => [ESCAPE, HEX] + CharToHex(c)
      case Backslash => [ESCAPE, ESCAPE]
      case Quote => [ESCAPE, QUOTE]
    }

    function EncodePretty(c: byte): seq<byte> {
      match this
      case NonNarrowable => EncodeRoundtrip(c)
      case NonPrintable(_) => EncodeRoundtrip(c)
      case Backslash => [ESCAPE]
      case Quote => [QUOTE]
    }
  }

  predicate IsWhiteSpace(c: byte) { c == 13 || c == 10 || c == 9 || c == 11 || c == 32 }

  // ---- two hexadecimal digits ----

  function Digit(n: nat): byte
    requires n < 16
  {
    if n < 10 then 48 + n else 87 + n
  }

  function CharToHex(c: byte): seq<byte> { [Digit(c / 16), Digit(c % 16)] }

  function DigitValue(c: byte): Option<nat> {
    if 48 <= c <= 57 then Some(c - 48)
    else if 97 <= c <= 102 then Some(c - 87)
    else if 65 <= c <= 70 then Some(c - 55)
    else None
  }

  /** What the stream extraction makes of two characters that are not both digits is a parameter. */
  function HexToChar(odd: (byte, byte) -> Option<byte>, a: byte, b: byte): Option<byte> {
    match (DigitValue(a), DigitValue(b))
    case (Some(h), Some(l)) => (assert h < 16 && l < 16; Some(16 * h + l))
    case _ => odd(a, b)
  }

  lemma HexRoundTrip(odd: (byte, byte) -> Option<byte>, c: byte)
    ensures HexToChar(odd, CharToHex(c)[0], CharToHex(c)[1]) == Some(c)
  {
    assert forall n: nat | n < 16 :: DigitValue(Digit(n)) == Some(n);
  }

  /** What the encoder is built from, with the character classification of the locale */
  datatype Settings = Settings(encodings: seq<CharEncoder>, flags: Flags, isprint: byte -> bool,
                               odd: (byte, byte) -> Option<byte>)

  /** eBadDecoderInput, eUnknownEscapeEncoding, eBadHexConversion */
  datatype Decoded = Plain(text: seq<byte>) | BadInput | UnknownEscape | BadHex {
    function After(prefix: seq<byte>): Decoded { if Plain? then Plain(prefix + text) else this }
  }

  // ---- the meaning of the two loops ----

  function EncodedBy(e: CharEncoder, flags: Flags, c: byte): seq<byte> {
    if flags.roundTrip then e.EncodeRoundtrip(c) else e.EncodePretty(c)
  }

  /** The first encoder that wants a character encodes it. */
  function EncodeChar(s: Settings, encodings: seq<CharEncoder>, c: byte): seq<byte> {
    if encodings == [] then [c]
    else if encodings[0].NeedsEncoding(s.isprint, c) then EncodedBy(encodings[0], s.flags, c)
    else EncodeChar(s, encodings[1..], c)
  }

  function EncodeText(s: Settings, text: seq<byte>): seq<byte> {
    if text == [] || text[0] == 0 then [] else EncodeChar(s, s.encodings, text[0]) + EncodeText(s, text[1..])
  }

  function FindEncoder(encodings: seq<CharEncoder>, identifier: byte): Option<CharEncoder> {
    if encodings == [] then None
    else if encodings[0].Identifier() == identifier then Some(encodings[0])
    else FindEncoder(encodings[1..], identifier)
  }

  /** An escape sequence from its identifier on: what it stands for and how long it is */
  function DecodeOne(s: Settings, text: seq<byte>): (r: (Decoded, nat))
    requires text != []
    ensures r.0.Plain? ==> 0 < r.1 <= |text|
  {
    match FindEncoder(s.encodings, text[0])
    case None => (UnknownEscape, 0)
    case Some(Backslash) => (Plain([ESCAPE]), 1)
    case Some(Quote) => (Plain([QUOTE]), 1)
    case Some(_) =>
      if |text| < 3 then (BadInput, 0)
      else match HexToChar(s.odd, text[1], text[2]) case Some(c) => (Plain([c]), 3) case None => (BadHex, 0)
  }

  function DecodeText(s: Settings, text: seq<byte>): Decoded
    decreases |text|
  {
    if text == [] || text[0] == 0 then Plain([])
    else if text[0] != ESCAPE then DecodeText(s, text[1..]).After([text[0]])
    else if |text| == 1 || text[1] == 0 then BadInput
    else
      var (r, n) := DecodeOne(s, text[1..]);
      if r.Plain? then DecodeText(s, text[1 + n..]).After(r.text) else r
  }

  // ---- theorems ----

  /** A backslash never stands for itself. */
  predicate EscapesBackslash(s: Settings) { EncodeChar(s, s.encodings, ESCAPE) != [ESCAPE] }

  /** The three forms that a character is given, with the encoder that reads the form back */
  lemma {:induction false} EncodedForm(s: Settings, encodings: seq<CharEncoder>, c: byte)
    ensures var out := EncodeChar(s, encodings, c);
            || out == [c]
            || (out == [ESCAPE, HEX] + CharToHex(c) && exists e :: e in encodings && e.Identifier() == HEX)
            || (out == [ESCAPE, c] && ((c == ESCAPE && Backslash in encodings) || (c == QUOTE && Quote in encodings)))
  {
    if encodings != [] {
      var e := encodings[0];
      if e.NeedsEncoding(s.isprint, c) {
        assert e in encodings;
      } else {
        EncodedForm(s, encodings[1..], c);
        assert forall x :: x in encodings[1..] ==> x in encodings;
      }
    }
  }

  lemma {:induction false} Finds(encodings: seq<CharEncoder>, e: CharEncoder)
    requires e in encodings
    ensures var f := FindEncoder(encodings, e.Identifier()); f.Some? && f.value.Identifier() == e.Identifier()
  {
    if encodings[0].Identifier() != e.Identifier() { Finds(encodings[1..], e); }
  }

  /** After the code of a character the decoder is at the code of the next one. */
  lemma DecodeCode(s: Settings, c: byte, rest: seq<byte>)
    requires c != 0 && (c == ESCAPE ==> EscapesBackslash(s))
    ensures DecodeText(s, EncodeChar(s, s.encodings, c) + rest) == DecodeText(s, rest).After([c])
  {
    EncodedForm(s, s.encodings, c);
    var out := EncodeChar(s, s.encodings, c);
    var t := out + rest;
    if out == [c] {
      assert t[1..] == rest;
    } else if out == [ESCAPE, c] && c != HEX {
      assert t[1..][0] == c && t[2..] == rest;
      if c == ESCAPE { Finds(s.encodings, Backslash); } else { Finds(s.encodings, Quote); }
    } else {
      var e :| e in s.encodings && e.Identifier() == HEX;
      Finds(s.encodings, e);
      HexRoundTrip(s.odd, c);
      assert t[1..][0] == HEX && t[1..][1..3] == CharToHex(c) && t[4..] == rest;
    }
  }

  lemma {:induction false} Restores(s: Settings, text: seq<byte>)
    requires EscapesBackslash(s)
    ensures DecodeText(s, EncodeText(s, text)) == Plain(CString(text, 0))
  {
    if text != [] && text[0] != 0 {
      Restores(s, text[1..]);
      DecodeCode(s, text[0], EncodeText(s, text[1..]));
    }
  }

  predicate NulFree(text: seq<byte>) { 0 !in text }

  /** Decoding undoes encoding for every text exactly when the backslash is escaped. */
  lemma RoundTrip(s: Settings)
    ensures EscapesBackslash(s) <==>
            forall text: seq<byte> :: NulFree(text) ==> DecodeText(s, EncodeText(s, text)) == Plain(text)
  {
    if EscapesBackslash(s) {
      forall text: seq<byte> | NulFree(text) ensures DecodeText(s, EncodeText(s, text)) == Plain(text) {
        Restores(s, text);
        CStringWhole(text, 0);
      }
    } else {
      var text: seq<byte> := [ESCAPE];
      assert NulFree(text);
      assert EncodeText(s, text) == EncodeChar(s, s.encodings, ESCAPE) + EncodeText(s, text[1..]) == [ESCAPE];
      assert DecodeText(s, [ESCAPE]) == BadInput;
    }
  }

  predicate Shown(s: Settings, allowWS: bool, c: byte) { s.isprint(c) || (allowWS && IsWhiteSpace(c)) }

  ghost predicate AllShown(s: Settings, allowWS: bool, text: seq<byte>) {
    forall c :: c in text ==> Shown(s, allowWS, c)
  }

  /** With the non-printable encoder on, only printable characters and allowed white space are left, provided the
      escape sequences themselves are printable. */
  lemma {:induction false} OnlyShown(s: Settings, allowWS: bool, text: seq<byte>)
    requires NonPrintable(allowWS) in s.encodings
    requires s.isprint(ESCAPE) && s.isprint(QUOTE) && s.isprint(HEX)
    requires forall n: nat | n < 16 :: s.isprint(Digit(n))
    ensures AllShown(s, allowWS, EncodeText(s, text))
  {
    if text != [] && text[0] != 0 {
      OnlyShown(s, allowWS, text[1..]);
      EncodedForm(s, s.encodings, text[0]);
      if EncodeChar(s, s.encodings, text[0]) == [text[0]] { UnencodedShown(s, s.encodings, allowWS, text[0]); }
    }
  }

  lemma {:induction false} UnencodedShown(s: Settings, encodings: seq<CharEncoder>, allowWS: bool, c: byte)
    requires NonPrintable(allowWS) in encodings && EncodeChar(s, encodings, c) == [c]
    requires s.isprint(ESCAPE) && s.isprint(QUOTE)
    ensures Shown(s, allowWS, c)
  {
    if !encodings[0].NeedsEncoding(s.isprint, c) && encodings[0] != NonPrintable(allowWS) {
      UnencodedShown(s, encodings[1..], allowWS, c);
    }
  }

  /** cCharUtil::PopNextChar: the next character and the position after it; a NUL ends the text. */
  method PopNextChar(text: seq<byte>, cur: nat) returns (found: bool, first: nat, last: nat)
    requires cur <= |text|
    ensures found == (cur < |text| && text[cur] != 0)
    ensures first == cur && last == if found then cur + 1 else cur
  {
    if cur == |text| { return false, cur, cur; }
    if text[cur] == 0 { return false, cur, cur; }
    return true, cur, cur + 1;
  }

  lemma EncodeStep(s: Settings, text: seq<byte>, i: nat)
    requires i < |text| && text[i] != 0
    ensures EncodeText(s, text[i..]) == EncodeChar(s, s.encodings, text[i]) + EncodeText(s, text[i + 1..])
  {
    assert text[i..][1..] == text[i + 1..];
  }

  lemma AtEnd(s: Settings, text: seq<byte>, i: nat)
    requires i <= |text| && (i == |text| || text[i] == 0)
    ensures EncodeText(s, text[i..]) == [] && DecodeText(s, text[i..]) == Plain([])
  {}

  /** One turn of the decoding loop */
  lemma DecodeStep(s: Settings, text: seq<byte>, i: nat, prefix: seq<byte>)
    requires i < |text| && text[i] != 0
    ensures text[i] != ESCAPE ==>
              DecodeText(s, text[i..]).After(prefix) == DecodeText(s, text[i + 1..]).After(prefix + [text[i]])
    ensures text[i] == ESCAPE && (i + 1 == |text| || text[i + 1] == 0) ==> DecodeText(s, text[i..]) == BadInput
    ensures text[i] == ESCAPE && i + 1 < |text| && text[i + 1] != 0 ==>
              var (r, n) := DecodeOne(s, text[i + 1..]);
              DecodeText(s, text[i..]).After(prefix) ==
              if r.Plain? then DecodeText(s, text[i + 1 + n..]).After(prefix + r.text) else r
  {
    hide DecodeOne;
    assert text[i..][1..] == text[i + 1..];
    if text[i] == ESCAPE && i + 1 < |text| && text[i + 1] != 0 {
      var (r, n) := DecodeOne(s, text[i + 1..]);
      if r.Plain? {
        assert text[i..][1 + n..] == text[i + 1 + n..];
        AfterAfter(DecodeText(s, text[i + 1 + n..]), prefix, r.text);
      }
    } else if text[i] != ESCAPE {
      AfterAfter(DecodeText(s, text[i + 1..]), prefix, [text[i]]);
    }
  }

  lemma AfterAfter(d: Decoded, p: seq<byte>, q: seq<byte>)
    ensures d.After(q).After(p) == d.After(p + q)
  {
    if d.Plain? { assert p + (q + d.text) == p + q + d.text; }
  }

  function IfOn(on: bool, e: CharEncoder): seq<CharEncoder> { if on then [e] else [] }

  /** The encoders that are on, in the order of the source */
  function Encodings(nonNarrowable: bool, nonPrintable: bool, backslash: bool, dblQuote: bool,
                     f: Flags): seq<CharEncoder> {
    IfOn(nonNarrowable, NonNarrowable)
    + (IfOn(nonPrintable, NonPrintable(f.allowWhiteSpace)) + (IfOn(backslash, Backslash) + IfOn(dblQuote, Quote)))
  }

  class Encoder {
    var m_encodings: seq<CharEncoder>
    const m_fFlags: Flags
    const isprint: byte -> bool
    const odd: (byte, byte) -> Option<byte>

    function Config(): Settings
      reads this
    {
      Settings(m_encodings, m_fFlags, isprint, odd)
    }

    constructor (nonNarrowable: bool, nonPrintable: bool, backslash: bool, dblQuote: bool, f: Flags,
                 isprint: byte -> bool, odd: (byte, byte) -> Option<byte>)
      ensures Config() == Settings(Encodings(nonNarrowable, nonPrintable, backslash, dblQuote, f), f, isprint, odd)
      ensures EscapesBackslash(Config()) <==> (nonPrintable && !isprint(ESCAPE)) || (backslash && f.roundTrip)
      ensures nonPrintable ==> NonPrintable(f.allowWhiteSpace) in m_encodings
    {
      m_encodings := [];
      m_fFlags, this.isprint, this.odd := f, isprint, odd;
      new;
      if nonNarrowable { m_encodings := m_encodings + [NonNarrowable]; }
      if nonPrintable { m_encodings := m_encodings + [NonPrintable(f.allowWhiteSpace)]; }
      if backslash { m_encodings := m_encodings + [Backslash]; }
      if dblQuote { m_encodings := m_encodings + [Quote]; }
      WhenEscaped(Config(), nonNarrowable, nonPrintable, backslash, dblQuote);
    }

    method Encode(text: seq<byte>) returns (strOut: seq<byte>)
      ensures strOut == EncodeText(Config(), text)
    {
      hide EncodeText, EncodeChar;
      strOut := [];
      var found, first, cur := PopNextChar(text, 0);
      assert text[0..] == text;
      while found
        invariant first <= |text| && found == (first < |text| && text[first] != 0) && (found ==> cur == first + 1)
        invariant strOut + EncodeText(Config(), text[first..]) == EncodeText(Config(), text)
        decreases |text| - first
      {
        EncodeStep(Config(), text, first);
        var code := EncodeNext(text[first]);
        strOut := strOut + code;
        found, first, cur := PopNextChar(text, cur);
      }
      AtEnd(Config(), text, first);
    }

    /** The first encoder that needs to, and its code */
    method EncodeNext(c: byte) returns (code: seq<byte>)
      ensures code == EncodeChar(Config(), m_encodings, c)
    {
      var atE := 0;
      while atE < |m_encodings|
        invariant atE <= |m_encodings|
        invariant EncodeChar(Config(), m_encodings[atE..], c) == EncodeChar(Config(), m_encodings, c)
      {
        if m_encodings[atE].NeedsEncoding(isprint, c) { return EncodedBy(m_encodings[atE], m_fFlags, c); }
        assert m_encodings[atE..][1..] == m_encodings[atE + 1..];
        atE := atE + 1;
      }
      return [c];
    }

    method Decode(text: seq<byte>) returns (r: Decoded)
      ensures r == DecodeText(Config(), text)
    {
      hide DecodeText, DecodeOne;
      var strOut: seq<byte> := [];
      var found, first, cur := PopNextChar(text, 0);
      assert text[0..] == text;
      while found
        invariant first <= |text| && found == (first < |text| && text[first] != 0) && (found ==> cur == first + 1)
        invariant DecodeText(Config(), text[first..]).After(strOut) == DecodeText(Config(), text)
        decreases |text| - first
      {
        DecodeStep(Config(), text, first, strOut);
        if text[first] == ESCAPE {
          found, first, cur := PopNextChar(text, cur);
          if !found { return BadInput; }
          var code, n := DecodeEscape(text[first..]);
          if !code.Plain? { return code; }
          strOut := strOut + code.text;
          cur := first + n;
        } else {
          strOut := strOut + [text[first]];
        }
        found, first, cur := PopNextChar(text, cur);
      }
      AtEnd(Config(), text, first);
      return Plain(strOut);
    }

    /** The loop over the encoders and the Decode of the one whose identifier it is */
    method DecodeEscape(text: seq<byte>) returns (r: Decoded, n: nat)
      requires text != []
      ensures (r, n) == DecodeOne(Config(), text)
    {
      var atE := 0;
      while atE < |m_encodings| && text[0] != m_encodings[atE].Identifier()
        invariant atE <= |m_encodings|
        invariant FindEncoder(m_encodings[atE..], text[0]) == FindEncoder(m_encodings, text[0])
      {
        assert m_encodings[atE..][1..] == m_encodings[atE + 1..];
        atE := atE + 1;
      }
      if atE == |m_encodings| { return UnknownEscape, 0; }
      match m_encodings[atE] {
        case Backslash => return Plain([ESCAPE]), 1;
        case Quote => return Plain([QUOTE]), 1;
        case _ => r, n := DecodeHexToChar(text);
      }
    }

    /** Two characters after the identifier, or as many as there are */
    method DecodeHexToChar(text: seq<byte>) returns (r: Decoded, n: nat)
      requires text != []
      ensures (r, n) ==
              if |text| < 3 then (BadInput, 0)
              else match HexToChar(odd, text[1], text[2]) {
                     case Some(c) => (Plain([c]), 3)
                     case None => (BadHex, 0)
                   }
    {
      hide HexToChar;
      var str: seq<byte>, cur := [], 1;
      while |str| < 2 && cur != |text|
        invariant cur == 1 + |str| <= |text| && |str| <= 2
        invariant forall i :: 0 <= i < |str| ==> str[i] == text[1 + i]
      {
        str, cur := str + [text[cur]], cur + 1;
      }
      if |str| != 2 { return BadInput, 0; }
      var c := HexToChar(odd, str[0], str[1]);
      if c.None? { return BadHex, 0; }
      return Plain([c.value]), 3;
    }
  }

  lemma WhenEscaped(s: Settings, nonNarrowable: bool, nonPrintable: bool, backslash: bool, dblQuote: bool)
    requires s.encodings == Encodings(nonNarrowable, nonPrintable, backslash, dblQuote, s.flags)
    ensures EscapesBackslash(s) <==> (nonPrintable && !s.isprint(ESCAPE)) || (backslash && s.flags.roundTrip)
  {
    var q := IfOn(dblQuote, Quote);
    var bs := IfOn(backslash, Backslash) + q;
    var np := IfOn(nonPrintable, NonPrintable(s.flags.allowWhiteSpace)) + bs;
    assert q + [] == q;
    PassesThrough(s, dblQuote, Quote, [], ESCAPE);
    PassesThrough(s, backslash, Backslash, q, ESCAPE);
    PassesThrough(s, nonPrintable, NonPrintable(s.flags.allowWhiteSpace), bs, ESCAPE);
    PassesThrough(s, nonNarrowable, NonNarrowable, np, ESCAPE);
  }

  /** An encoder that is off, or does not need to, leaves a character to the ones after it. */
  lemma PassesThrough(s: Settings, on: bool, e: CharEncoder, rest: seq<CharEncoder>, c: byte)
    ensures EncodeChar(s, IfOn(on, e) + rest, c) ==
            if on && e.NeedsEncoding(s.isprint, c) then EncodedBy(e, s.flags, c) else EncodeChar(s, rest, c)
  {
    if on { assert ([e] + rest)[1..] == rest; } else { assert [] + rest == rest; }
  }

  // ---- the code of every character ----

  /** A lower-case hexadecimal digit */
  predicate IsDigit(d: byte, n: nat) {
    n < 16 && d == [48, 49, 50, 51, 52, 53, 54, 55, 56, 57, 97, 98, 99, 100, 101, 102][n]
  }

  lemma HexDigits(c: byte)
    ensures |CharToHex(c)| == 2 && IsDigit(CharToHex(c)[0], c / 16) && IsDigit(CharToHex(c)[1], c % 16)
  {}

  /** Upper-case digits are read as well. */
  lemma UpperCaseDigits(n: nat)
    requires n < 6
    ensures DigitValue(65 + n) == DigitValue(97 + n) == Some(10 + n)
  {}

  /** What becomes of a character, for encoders that are on and off: a non-printable one a backslash, an x and two
      digits; a backslash or a quote itself after a backslash, or without it when no round trip is wanted; any other
      itself. */
  lemma CodeOf(s: Settings, nonNarrowable: bool, nonPrintable: bool, backslash: bool, dblQuote: bool, c: byte)
    requires s.encodings == Encodings(nonNarrowable, nonPrintable, backslash, dblQuote, s.flags)
    ensures var code := EncodeChar(s, s.encodings, c);
            if nonPrintable && !s.isprint(c) && !(s.flags.allowWhiteSpace && c in [9, 10, 11, 13, 32]) then
              |code| == 4 && code[..2] == [92, 120] && IsDigit(code[2], c / 16) && IsDigit(code[3], c % 16)
            else if (backslash && c == 92) || (dblQuote && c == 34) then
              code == if s.flags.roundTrip then [92, c] else [c]
            else code == [c]
  {
    assert EncodeChar(s, [], c) == [c];
    hide EncodeChar, CharToHex, IsDigit;
    var q := IfOn(dblQuote, Quote);
    var bs := IfOn(backslash, Backslash) + q;
    var np := IfOn(nonPrintable, NonPrintable(s.flags.allowWhiteSpace)) + bs;
    assert q + [] == q;
    PassesThrough(s, dblQuote, Quote, [], c);
    PassesThrough(s, backslash, Backslash, q, c);
    PassesThrough(s, nonPrintable, NonPrintable(s.flags.allowWhiteSpace), bs, c);
    PassesThrough(s, nonNarrowable, NonNarrowable, np, c);
    HexDigits(c);
  }

  /** So a character is left alone exactly when no encoder that is on is for it, or only the escape is left out. */
  lemma LeftAlone(s: Settings, nonNarrowable: bool, nonPrintable: bool, backslash: bool, dblQuote: bool, c: byte)
    requires s.encodings == Encodings(nonNarrowable, nonPrintable, backslash, dblQuote, s.flags)
    ensures EncodeChar(s, s.encodings, c) == [c] <==>
            && (nonPrintable ==> s.isprint(c) || (s.flags.allowWhiteSpace && c in [9, 10, 11, 13, 32]))
            && (backslash && s.flags.roundTrip ==> c != 92) && (dblQuote && s.flags.roundTrip ==> c != 34)
  {
    CodeOf(s, nonNarrowable, nonPrintable, backslash, dblQuote, c);
  }

  // ---- texts that no encoder made ----

  /** An escape at the end, one that no encoder knows, and one with too few digits are errors. */
  lemma DecodeErrors(s: Settings, text: seq<byte>)
    requires text != [] && text[0] == 92
    ensures |text| == 1 || text[1] == 0 ==> DecodeText(s, text) == BadInput
    ensures |text| > 1 && text[1] != 0 && (forall e :: e in s.encodings ==> e.Identifier() != text[1]) ==>
              DecodeText(s, text) == UnknownEscape
    ensures 1 < |text| < 4 && text[1] == 120 && (exists e :: e in s.encodings && e.Identifier() == 120) ==>
              DecodeText(s, text) == BadInput
  {
    if |text| > 1 && text[1] != 0 {
      if forall e :: e in s.encodings ==> e.Identifier() != text[1] {
        FindsNone(s.encodings, text[1]);
      } else {
        var e :| e in s.encodings && e.Identifier() == text[1];
        Finds(s.encodings, e);
      }
    }
  }

  lemma {:induction false} FindsNone(encodings: seq<CharEncoder>, identifier: byte)
    requires forall e :: e in encodings ==> e.Identifier() != identifier
    ensures FindEncoder(encodings, identifier) == None
  {
    if encodings != [] { FindsNone(encodings[1..], identifier); }
  }
}
