/** Characters by their places in an alphabet that is written out. */
module Alphabets {
  import opened Bytes

  /** DIGIT and HEXDIG of RFC 5234, the latter in either case as strings of that grammar are, and ALPHA. */
  const DIGITS := "0123456789"
  const LOWER_HEX := "0123456789abcdef"
  const UPPER_HEX := "0123456789ABCDEF"
  const LOWER_LETTERS := "abcdefghijklmnopqrstuvwxyz"
  const UPPER_LETTERS := "ABCDEFGHIJKLMNOPQRSTUVWXYZ"

  /** Where c stands in the alphabet first, or -1. */
  function Place(c: Byte, alphabet: seq<Byte>): (i: int)
    ensures -1 <= i < |alphabet|
    ensures i >= 0 ==> alphabet[i] == c && forall j :: 0 <= j < i ==> alphabet[j] != c
    ensures i == -1 ==> c !in alphabet
  {
    PlaceFrom(c, alphabet, 0)
  }

  function PlaceFrom(c: Byte, alphabet: seq<Byte>, from: nat): (i: int)
    requires from <= |alphabet| && forall j :: 0 <= j < from ==> alphabet[j] != c
    ensures -1 <= i < |alphabet|
    ensures i >= 0 ==> alphabet[i] == c && forall j :: 0 <= j < i ==> alphabet[j] != c
    ensures i == -1 ==> c !in alphabet
    decreases |alphabet| - from
  {
    if from == |alphabet| then -1
    else if alphabet[from] == c then from
    else PlaceFrom(c, alphabet, from + 1)
  }

  /** What a hexadecimal digit is worth, or -1. */
  function HexPlace(c: Byte): (d: int)
    ensures -1 <= d < 16
  {
    if c in LOWER_HEX then Place(c, LOWER_HEX) else Place(c, UPPER_HEX)
  }

  /** A letter in lower case, and any other character as it is. */
  function InLowerCase(c: Byte): Byte {
    if c in UPPER_LETTERS then LOWER_LETTERS[Place(c, UPPER_LETTERS)] else c
  }

  predicate IsLetter(c: Byte) {
    c in LOWER_LETTERS || c in UPPER_LETTERS
  }

  // The alphabets by their codes

  /** A character that stands at one place only. */
  lemma PlaceIs(c: Byte, alphabet: seq<Byte>, i: nat)
    requires i < |alphabet| && alphabet[i] == c && forall j :: 0 <= j < i ==> alphabet[j] != c
    ensures Place(c, alphabet) == i
  {}

  lemma DigitCodes(i: nat)
    requires i < 10
    ensures DIGITS[i] as int == '0' as int + i
  {}

  lemma LowerHexCodes(i: nat)
    requires i < 16
    ensures LOWER_HEX[i] as int == if i < 10 then '0' as int + i else 'a' as int + i - 10
  {}

  lemma UpperHexCodes(i: nat)
    requires i < 16
    ensures UPPER_HEX[i] as int == if i < 10 then '0' as int + i else 'A' as int + i - 10
  {}

  lemma LetterCodes(i: nat)
    requires i < 26
    ensures LOWER_LETTERS[i] as int == 'a' as int + i
    ensures UPPER_LETTERS[i] as int == 'A' as int + i
  {}

  /** A decimal digit by its code. */
  lemma DigitPlace(c: Byte)
    ensures c in DIGITS <==> '0' <= c <= '9'
    ensures c in DIGITS ==> Place(c, DIGITS) == c as int - '0' as int
  {
    if c in DIGITS {
      DigitCodes(Place(c, DIGITS));
    } else if '0' <= c <= '9' {
      DigitCodes(c as int - '0' as int);
    }
  }

  /** A hexadecimal digit by its code. */
  lemma HexByCode(c: Byte)
    ensures HexPlace(c) == if '0' <= c <= '9' then c as int - '0' as int
                           else if 'a' <= c <= 'f' then c as int - 'a' as int + 10
                           else if 'A' <= c <= 'F' then c as int - 'A' as int + 10
                           else -1
  {
    if c in LOWER_HEX {
      LowerHexCodes(Place(c, LOWER_HEX));
    } else if c in UPPER_HEX {
      UpperHexCodes(Place(c, UPPER_HEX));
      if Place(c, UPPER_HEX) < 10 { LowerHexCodes(Place(c, UPPER_HEX)); }
    } else {
      HexCharacters(c);
    }
  }

  lemma HexCharacters(c: Byte)
    ensures '0' <= c <= '9' || 'a' <= c <= 'f' ==> c in LOWER_HEX
    ensures 'A' <= c <= 'F' ==> c in UPPER_HEX
  {
    if '0' <= c <= '9' {
      LowerHexCodes(c as int - '0' as int);
    } else if 'a' <= c <= 'f' {
      LowerHexCodes(c as int - 'a' as int + 10);
    } else if 'A' <= c <= 'F' {
      UpperHexCodes(c as int - 'A' as int + 10);
    }
  }

  /** The characters of an alphabet whose codes follow each other. */
  lemma CodesInOrder(c: Byte, alphabet: seq<Byte>, first: Byte)
    requires first as int + |alphabet| < 256
    requires forall i :: 0 <= i < |alphabet| ==> alphabet[i] as int == first as int + i
    ensures c in alphabet <==> first as int <= c as int < first as int + |alphabet|
    ensures c in alphabet ==> Place(c, alphabet) == c as int - first as int
  {
    if first as int <= c as int < first as int + |alphabet| {
      assert alphabet[c as int - first as int] == c;
    }
  }

  /** A letter by its code. */
  lemma LetterByCode(c: Byte)
    ensures c in LOWER_LETTERS <==> 'a' <= c <= 'z'
    ensures c in UPPER_LETTERS <==> 'A' <= c <= 'Z'
    ensures InLowerCase(c) == if 'A' <= c <= 'Z' then (c as int + 0x20) as char else c
  {
    var lower, upper := LettersInOrder();
    CodesInOrder(c, lower, 'a');
    CodesInOrder(c, upper, 'A');
  }

  lemma LettersInOrder() returns (lower: seq<Byte>, upper: seq<Byte>)
    ensures lower == LOWER_LETTERS && upper == UPPER_LETTERS && |lower| == |upper| == 26
    ensures forall i :: 0 <= i < 26 ==> lower[i] as int == 'a' as int + i && upper[i] as int == 'A' as int + i
  {
    lower, upper := LOWER_LETTERS, UPPER_LETTERS;
    forall i | 0 <= i < 26
      ensures LOWER_LETTERS[i] as int == 'a' as int + i && UPPER_LETTERS[i] as int == 'A' as int + i
    {
      LetterCodes(i);
    }
  }
}
