/** The strings of JSON as they are written (RFC 8259, section 7), and that parson reads exactly these. */
module JsonStrings {
  import opened Alphabets
  import opened Bytes
  import opened ObjectTable
  import opened JsonText
  import opened JsonReader
  import Encoding = Utf8

  /** The letters of the escapes of two characters, and what they stand for. */
  const LETTERS: seq<Byte> := "\"\\/bfnrt"
  const MEANINGS: seq<Byte> := "\"\\/\U{8}\U{c}\n\r\t"

  /** A character as it is written: as itself; \ and a letter; \u and four digits; or two of these as a pair. */
  datatype Char =
    | Plain(c: Byte)
    | Short(letter: Byte)
    | Unit(digits: seq<Byte>)
    | Pair(lead: seq<Byte>, trail: seq<Byte>)

  /** A hexadecimal digit, in either case */
  predicate IsHexDigit(c: Byte) {
    c in LOWER_HEX || c in UPPER_HEX
  }

  /** Four of them */
  predicate FourDigits(d: seq<Byte>) {
    |d| == 4 && forall i :: 0 <= i < 4 ==> IsHexDigit(d[i])
  }

  function HexNumber(d: seq<Byte>): (n: nat)
    requires FourDigits(d)
    ensures n < 0x10000
  {
    HexPlace(d[0]) * 0x1000 + HexPlace(d[1]) * 0x100 + HexPlace(d[2]) * 0x10 + HexPlace(d[3])
  }

  /**
   * No quote, no backslash and no control character is written as itself; an escaped surrogate stands in a pair
   * of a lead and a trail, and only there.
   */
  predicate ValidChar(ch: Char) {
    match ch
    case Plain(c) => c != '"' && c != '\\' && c as int >= 0x20
    case Short(l) => l in LETTERS
    case Unit(d) => FourDigits(d) && !(0xD800 <= HexNumber(d) <= 0xDFFF)
    case Pair(d, e) =>
      FourDigits(d) && FourDigits(e) && 0xD800 <= HexNumber(d) <= 0xDBFF && 0xDC00 <= HexNumber(e) <= 0xDFFF
  }

  function CharText(ch: Char): (t: seq<Byte>)
    ensures t != []
  {
    match ch
    case Plain(c) => [c]
    case Short(l) => ['\\', l]
    case Unit(d) => ['\\', 'u'] + d
    case Pair(d, e) => ['\\', 'u'] + d + (['\\', 'u'] + e)
  }

  /** What a character stands for, in UTF-8 if it is written by its number. */
  function CharBytes(ch: Char): (bytes: seq<Byte>)
    requires ValidChar(ch)
  {
    match ch
    case Plain(c) => [c]
    case Short(l) => [MEANINGS[Place(l, LETTERS)]]
    case Unit(d) => Utf8(HexNumber(d))
    case Pair(d, e) => Utf8(0x10000 + (HexNumber(d) - 0xD800) * 0x400 + (HexNumber(e) - 0xDC00))
  }

  predicate ValidChars(chars: seq<Char>) {
    forall i :: 0 <= i < |chars| ==> ValidChar(chars[i])
  }

  function CharsText(chars: seq<Char>): seq<Byte> {
    if chars == [] then [] else CharText(chars[0]) + CharsText(chars[1..])
  }

  function Contents(chars: seq<Char>): seq<Byte>
    requires ValidChars(chars)
  {
    if chars == [] then [] else CharBytes(chars[0]) + Contents(chars[1..])
  }

  /** A string in quotes */
  function StringText(chars: seq<Char>): seq<Byte> {
    ['"'] + CharsText(chars) + ['"']
  }

  /** What is written by its number is stored as the one well-formed sequence of that code point. */
  lemma CharIsSequence(ch: Char)
    requires ValidChar(ch) && (ch.Unit? || ch.Pair?)
    ensures Encoding.SequenceAt(CharBytes(ch)) == |CharBytes(ch)| > 0
    ensures Encoding.CodePoint(CharBytes(ch))
            == if ch.Unit? then HexNumber(ch.digits)
               else 0x10000 + (HexNumber(ch.lead) - 0xD800) * 0x400 + (HexNumber(ch.trail) - 0xDC00)
  {
    hide FourDigits, HexNumber, Utf8, Encoding.SequenceAt, Encoding.CodePoint;
    Encoding.Utf8IsSequence(if ch.Unit? then HexNumber(ch.digits)
                            else 0x10000 + (HexNumber(ch.lead) - 0xD800) * 0x400 + (HexNumber(ch.trail) - 0xDC00));
  }

  // One character

  /** hex_char_to_int is the place among the digits of either case. */
  lemma HexValueIsPlace(c: Byte)
    ensures HexValue(c) == HexPlace(c)
    ensures HexPlace(c) >= 0 <==> c in LOWER_HEX || c in UPPER_HEX
  {
    HexByCode(c);
  }

  lemma Hex4IsNumber(s: seq<Byte>)
    ensures Hex4(s).Some? <==> |s| >= 4 && FourDigits(s[..4])
    ensures Hex4(s).Some? ==> Hex4(s).value == HexNumber(s[..4])
  {
    hide HexValue, HexPlace, IsHexDigit;
    if |s| >= 4 {
      var d := s[..4];
      assert d[0] == s[0] && d[1] == s[1] && d[2] == s[2] && d[3] == s[3];
      HexDigitRead(s[0]);
      HexDigitRead(s[1]);
      HexDigitRead(s[2]);
      HexDigitRead(s[3]);
      assert FourDigits(d) <==> IsHexDigit(d[0]) && IsHexDigit(d[1]) && IsHexDigit(d[2]) && IsHexDigit(d[3]);
    }
  }

  lemma HexDigitRead(c: Byte)
    ensures HexValue(c) == HexPlace(c) && (HexPlace(c) >= 0 <==> IsHexDigit(c))
    ensures IsHexDigit(c) ==> c != '\0'
  {
    HexValueIsPlace(c);
    HexNotZero(c);
  }

  lemma HexNotZero(c: Byte)
    ensures HexPlace(c) >= 0 ==> c != '\0' && c != '"' && c != '\\'
  {
    HexByCode(c);
  }

  /** The escapes of two characters are exactly those of the letters. */
  lemma SimpleEscapeIsLetter(l: Byte)
    ensures SimpleEscape(l) == if l in LETTERS then Some(MEANINGS[Place(l, LETTERS)]) else None
  {
    LettersInPlace(LETTERS, l);
  }

  lemma LettersInPlace(s: seq<Byte>, l: Byte)
    requires s == LETTERS
    ensures l in s <==> l == '"' || l == '\\' || l == '/' || l == 'b' || l == 'f' || l == 'n' || l == 'r' || l == 't'
    ensures l in s ==>
              Place(l, s) == if l == '"' then 0 else if l == '\\' then 1 else if l == '/' then 2 else if l == 'b' then 3
                             else if l == 'f' then 4 else if l == 'n' then 5 else if l == 'r' then 6 else 7
  {
    assert s[0] == '"' && s[1] == '\\' && s[2] == '/' && s[3] == 'b' && s[4] == 'f' && s[5] == 'n' && s[6] == 'r';
    assert s[7] == 't' && |s| == 8;
  }

  lemma NoLetterU()
    ensures 'u' !in LETTERS
  {
    LettersInPlace(LETTERS, 'u');
  }

  /** A character in front of anything is read as what it stands for. */
  lemma CharRead(ch: Char, z: seq<Byte>)
    requires ValidChar(ch)
    ensures var s := CharText(ch) + z;
            && Cur(s) != '\0' && Cur(s) != '"'
            && ProcessOne(s) == Some((CharBytes(ch), |CharText(ch)|))
  {
    hide Hex4, SimpleEscape, Utf16Escape, CharBytes, HexNumber, IsHexDigit, ProcessOne;
    match ch
    case Plain(c) =>
      PlainRead(c, z);
    case Short(l) =>
      ShortRead(l, z);
    case Unit(d) =>
      UnitRead(d, z);
      EscapeRead(CharText(ch) + z, d + z);
    case Pair(d, e) =>
      PairRead(d, e, z);
      EscapeRead(CharText(ch) + z, d + (['\\', 'u'] + e + z));
  }

  lemma PlainRead(c: Byte, z: seq<Byte>)
    requires ValidChar(Plain(c))
    ensures ProcessOne([c] + z) == Some((CharBytes(Plain(c)), 1))
  {}

  lemma ShortRead(l: Byte, z: seq<Byte>)
    requires ValidChar(Short(l))
    ensures ProcessOne(['\\', l] + z) == Some((CharBytes(Short(l)), 2))
  {
    hide SimpleEscape, Place, Utf16Escape;
    var s := ['\\', l] + z;
    assert s[1..][0] == l;
    SimpleEscapeIsLetter(l);
    NoLetterU();
    LetterNotZero(l);
  }

  lemma EscapeRead(s: seq<Byte>, t: seq<Byte>)
    requires s == ['\\', 'u'] + t
    ensures Cur(s) == '\\'
    ensures Utf16Escape(t).Some? ==> ProcessOne(s) == Some((Utf16Escape(t).value.0, Utf16Escape(t).value.1 + 2))
  {
    hide Utf16Escape;
    assert s[1..][0] == 'u' && s[2..] == t;
  }

  lemma LetterNotZero(l: Byte)
    requires l in LETTERS
    ensures l != '\0'
  {
    LettersInPlace(LETTERS, l);
  }

  lemma UnitRead(d: seq<Byte>, z: seq<Byte>)
    requires FourDigits(d) && !(0xD800 <= HexNumber(d) <= 0xDFFF)
    ensures Utf16Escape(d + z) == Some((CharBytes(Unit(d)), 4))
  {
    hide Hex4, HexNumber, Utf8;
    assert (d + z)[..4] == d;
    Hex4IsNumber(d + z);
  }

  lemma PairRead(d: seq<Byte>, e: seq<Byte>, z: seq<Byte>)
    requires ValidChar(Pair(d, e))
    ensures Utf16Escape(d + (['\\', 'u'] + e + z)) == Some((CharBytes(Pair(d, e)), 10))
  {
    hide Hex4, HexNumber, Utf8;
    var s := d + (['\\', 'u'] + e + z);
    assert s[..4] == d && s[4..][0] == '\\' && s[5..][0] == 'u' && s[6..] == e + z && s[6..][..4] == e;
    Hex4IsNumber(s);
    Hex4IsNumber(s[6..]);
  }

  /** Conversely, whatever is read as one character is one. */
  lemma ReadIsChar(s: seq<Byte>) returns (ch: Char)
    requires Cur(s) != '\0' && Cur(s) != '"' && ProcessOne(s).Some?
    ensures ValidChar(ch)
    ensures var (bytes, used) := ProcessOne(s).value; CharText(ch) == s[..used] && CharBytes(ch) == bytes
  {
    hide Hex4, SimpleEscape, Utf16Escape, HexNumber, Utf8, FourDigits, Place;
    var (_, used) := ProcessOne(s).value;
    if s[0] != '\\' {
      ch := Plain(s[0]);
      assert s[..1] == [s[0]];
    } else if Cur(s[1..]) != 'u' {
      SimpleEscapeIsLetter(s[1]);
      ch := Short(s[1]);
      assert s[..2] == ['\\', s[1]];
    } else {
      ch := ReadIsEscape(s[2..]);
      assert s[..used] == ['\\', 'u'] + s[2..][..used - 2];
    }
  }

  lemma ReadIsEscape(t: seq<Byte>) returns (ch: Char)
    requires Utf16Escape(t).Some?
    ensures ValidChar(ch)
    ensures var (bytes, used) := Utf16Escape(t).value;
            CharText(ch) == ['\\', 'u'] + t[..used] && CharBytes(ch) == bytes
  {
    hide Hex4, HexNumber, Utf8, FourDigits;
    Hex4IsNumber(t);
    if Utf16Escape(t).value.1 == 4 {
      ch := Unit(t[..4]);
    } else {
      Hex4IsNumber(t[6..]);
      ch := Pair(t[..4], t[6..][..4]);
      assert t[4] == '\\' && t[5] == 'u';
      assert t[..10] == t[..4] + (['\\', 'u'] + t[6..][..4]);
      assert ['\\', 'u'] + t[..4] + (['\\', 'u'] + t[6..][..4]) == ['\\', 'u'] + t[..10];
    }
  }

  // Whole strings

  lemma {:induction false} CharsSkipped(chars: seq<Char>, z: seq<Byte>)
    requires ValidChars(chars)
    ensures SkipBody(CharsText(chars) + (['"'] + z)) == Some(z)
  {
    hide ProcessOne, CharText, ValidChar, SkipBody;
    var s := CharsText(chars) + (['"'] + z);
    if chars == [] {
      assert s == ['"'] + z;
      ClosingQuote(z);
    } else {
      var more := CharsText(chars[1..]) + (['"'] + z);
      assert s == CharText(chars[0]) + more;
      CharsSkipped(chars[1..], z);
      CharRead(chars[0], more);
      OneSkipped(s);
      assert s[|CharText(chars[0])|..] == more;
    }
  }

  lemma ClosingQuote(z: seq<Byte>)
    ensures SkipBody(['"'] + z) == Some(z)
  {
    assert (['"'] + z)[1..] == z;
  }

  lemma {:induction false} CharsProcessed(chars: seq<Char>, z: seq<Byte>)
    requires ValidChars(chars)
    ensures Process(CharsText(chars) + z, |CharsText(chars)|) == Some(Contents(chars))
  {
    hide ProcessOne, CharText, CharBytes, ValidChar;
    var s := CharsText(chars) + z;
    if chars == [] {
    } else {
      var more := CharsText(chars[1..]) + z;
      assert s == CharText(chars[0]) + more;
      CharsProcessed(chars[1..], z);
      CharRead(chars[0], more);
      assert s[|CharText(chars[0])|..] == more;
    }
  }

  /** A string with anything behind it is read as its contents. */
  lemma StringRead(chars: seq<Char>, rest: seq<Byte>)
    requires ValidChars(chars)
    ensures GetQuotedString(StringText(chars) + rest) == Some((Contents(chars), rest))
  {
    hide CharsText, Process, SkipBody, Contents, ValidChars;
    var s, body := StringText(chars) + rest, CharsText(chars) + (['"'] + rest);
    assert s == ['"'] + body && s[1..] == body;
    CharsSkipped(chars, rest);
    CharsProcessed(chars, ['"'] + rest);
  }

  /** skip_quotes leaves what follows a quote. */
  lemma {:induction false} SkipsToQuote(s: seq<Byte>)
    requires SkipBody(s).Some?
    ensures var n := |s| - |SkipBody(s).value| - 1; n >= 0 && s[n] == '"' && Quoted(s, n)
    decreases |s|
  {
    var c := Cur(s);
    if c == '"' {
      assert s[1..] == s[0 + 1..];
    } else {
      var k := if c == '\\' then 2 else 1;
      SkipsToQuote(s[k..]);
      var n := |s| - |SkipBody(s).value| - 1;
      assert s[k..][n - k..] == s[n..] && s[k..][n - k + 1..] == s[n + 1..];
    }
  }

  lemma {:induction false} ProcessedAreChars(s: seq<Byte>, n: nat) returns (chars: seq<Char>)
    requires Quoted(s, n) && Process(s, n).Some?
    ensures ValidChars(chars) && CharsText(chars) == s[..n] && Contents(chars) == Process(s, n).value
    decreases n
  {
    hide ProcessOne, CharText, CharBytes, ValidChar, SkipBody;
    if n == 0 {
      chars := [];
    } else {
      InsideQuotes(s, n);
      OneInside(s, n);
      var ch := ReadIsChar(s);
      var used := ProcessOne(s).value.1;
      var more := ProcessedAreChars(s[used..], n - used);
      chars := [ch] + more;
      assert chars[1..] == more;
      assert s[..used] + s[used..][..n - used] == s[..n];
    }
  }

  /** Conversely, whatever is read as a string is one, with these contents. */
  lemma ReadIsString(s: seq<Byte>) returns (chars: seq<Char>)
    requires GetQuotedString(s).Some?
    ensures ValidChars(chars) && s == StringText(chars) + GetQuotedString(s).value.1
    ensures Contents(chars) == GetQuotedString(s).value.0
  {
    hide Process, SkipBody, Contents, CharsText, ValidChars;
    var body, rest := s[1..], GetQuotedString(s).value.1;
    SkipsToQuote(body);
    var n := |body| - |rest| - 1;
    chars := ProcessedAreChars(body, n);
    assert body == body[..n] + (['"'] + body[n + 1..]);
    assert s == ['"'] + body && rest == body[n + 1..];
    assert s == StringText(chars) + rest;
  }
}
