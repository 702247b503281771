/** What the characters of a response are worth, by their places in written-out alphabets. */
module HttpChars {
  import opened Bytes
  import opened Alphabets
  import opened HttpParser
  import opened HttpLists
  import opened HttpNames

  /** The characters of a token in RFC 7230, section 3.2.6, besides digits and letters. */
  const TOKEN_MARKS := "!#$%&'*+-.^_`|~"

  /** IS_NUM and the number of a digit. */
  lemma DigitIsPlace(c: Byte)
    ensures IsNum(c) <==> c in DIGITS
    ensures IsNum(c) ==> Digit(c) == Place(c, DIGITS)
  {
    DigitPlace(c);
  }

  /** The table unhex is the place among the hexadecimal digits of either case, and -1 for every other byte. */
  lemma UnhexIsPlace(c: Byte)
    ensures Unhex(c) == HexPlace(c)
  {
    HexByCode(c);
  }

  /** LOWER adds 32 to a byte exactly when its bit 5 is not set; that is the lower case of a letter. */
  lemma LowerSetsBit(c: Byte)
    requires c as int < 256
    ensures Lower(c) as int == c as int + (if c as int / 32 % 2 == 0 then 32 else 0)
    ensures IsLetter(c) ==> Lower(c) == InLowerCase(c)
    ensures Lower(c) in LOWER_LETTERS <==> IsLetter(c)
  {
    LowerByCode(c);
    hide *;
    LetterByCode(c);
    LetterByCode(Lower(c));
    assert IsLetter(c) <==> 'a' <= c <= 'z' || 'A' <= c <= 'Z' by { Letters(c); }
  }

  lemma Letters(c: Byte)
    ensures IsLetter(c) <==> 'a' <= c <= 'z' || 'A' <= c <= 'Z'
  {
    hide Place;
    LetterByCode(c);
  }

  lemma LowerByCode(c: Byte)
    requires c as int < 256
    ensures Lower(c) as int == c as int + (if c as int / 32 % 2 == 0 then 32 else 0)
    ensures 'A' <= c <= 'Z' ==> Lower(c) as int == c as int + 0x20
    ensures 'a' <= Lower(c) <= 'z' <==> 'a' <= c <= 'z' || 'A' <= c <= 'Z'
  {}

  /** The table of tokens: which bytes have an entry, and that it is their lower case. */
  lemma TokenCharacters(c: Byte)
    ensures IsToken(c) <==> c in TOKEN_MARKS || c in DIGITS || IsLetter(c)
    ensures TokenOf(c) == InLowerCase(c)
  {
    hide Place;
    LetterByCode(c);
    DigitPlace(c);
    MarkCharacters(c);
  }

  lemma MarkCharacters(c: Byte)
    ensures c in TOKEN_MARKS
            <==> c in {'!', '#', '$', '%', '&', '\'', '*', '+', '-', '.', '^', '_', '`', '|', '~'}
  {
    var m := TOKEN_MARKS;
    assert |m| == 15 && m[0] == '!' && m[1] == '#' && m[2] == '$' && m[3] == '%' && m[4] == '&' && m[5] == '\'';
    assert m[6] == '*' && m[7] == '+' && m[8] == '-' && m[9] == '.' && m[10] == '^' && m[11] == '_';
    assert m[12] == '`' && m[13] == '|' && m[14] == '~';
  }

  /** The names and values that the parser knows. */
  lemma KnownWords()
    ensures NConnection.Text() == "connection" && NConnection.Header() == Connection
    ensures NProxyConnection.Text() == "proxy-connection" && NProxyConnection.Header() == Connection
    ensures NContentLength.Text() == "content-length" && NContentLength.Header() == ContentLength
    ensures NTransferEncoding.Text() == "transfer-encoding" && NTransferEncoding.Header() == TransferEncoding
    ensures NUpgrade.Text() == "upgrade" && NUpgrade.Header() == Upgrade
    ensures Chunked.Text() == "chunked" && KeepAlive.Text() == "keep-alive" && Close.Text() == "close"
    ensures ConnectionUpgrade.Text() == "upgrade"
  {}

  /** The same text, but for the case of letters. */
  predicate SameInAnyCase(s: seq<Byte>, w: seq<Byte>) {
    |s| == |w| && forall i :: 0 <= i < |s| ==> InLowerCase(s[i]) == w[i]
  }

  /** A name is compared in any case. */
  lemma NameInAnyCase(s: seq<Byte>, w: seq<Byte>)
    ensures LowerName(s) == w <==> SameInAnyCase(s, w)
  {
    forall i | 0 <= i < |s|
      ensures LowerName(s)[i] == InLowerCase(s[i])
    {
      TokenCharacters(s[i]);
    }
  }

  /** A value without a carriage return equals a word in lower case exactly if it is that word in any case. */
  lemma ValueInAnyCase(s: seq<Byte>, w: seq<Byte>)
    requires forall i :: 0 <= i < |s| ==> s[i] != CR && s[i] as int < 256
    requires forall i :: 0 <= i < |w| ==> w[i] in LOWER_LETTERS || w[i] == '-'
    ensures LowerValue(s) == w <==> SameInAnyCase(s, w)
  {
    if |s| == |w| {
      forall i | 0 <= i < |s|
        ensures LowerValue(s)[i] == w[i] <==> InLowerCase(s[i]) == w[i]
      {
        CharInAnyCase(s[i], w[i]);
      }
    }
  }

  lemma CharInAnyCase(c: Byte, l: Byte)
    requires c != CR && c as int < 256 && (l in LOWER_LETTERS || l == '-')
    ensures Lower(c) == l <==> InLowerCase(c) == l
  {
    hide Place;
    LetterByCode(c);
    LetterByCode(l);
  }
}
