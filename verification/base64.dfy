/** mongoose's base64 (RFC 4648, section 4). */
module Base64 {
  import opened Alphabets
  import opened Octets

  type Six = x: int | 0 <= x < 64

  /** mg_b64idx */
  function Index(c: Six): (r: char)
    ensures Reverse(r) == c && r != '='
  {
    if c < 26 then (c + 'A' as int) as char
    else if c < 52 then (c - 26 + 'a' as int) as char
    else if c < 62 then (c - 52 + '0' as int) as char
    else if c == 62 then '+' else '/'
  }

  /** mg_b64rev */
  function Reverse(c: char): (r: int)
    ensures -1 <= r <= 64 && (r == 64 <==> c == '=')
  {
    if 'A' <= c <= 'Z' then c as int - 'A' as int
    else if 'a' <= c <= 'z' then c as int + 26 - 'a' as int
    else if '0' <= c <= '9' then c as int + 52 - '0' as int
    else if c == '+' then 62
    else if c == '/' then 63
    else if c == '=' then 64
    else -1
  }

  // Three octets and four characters

  function First(a: Octet): Six {
    a / 4
  }

  function Second(a: Octet, b: Octet): Six {
    a % 4 * 16 + b / 16
  }

  function Third(b: Octet, c: Octet): Six {
    b % 16 * 4 + c / 64
  }

  function Fourth(c: Octet): Six {
    c % 64
  }

  function Group(a: Octet, b: Octet, c: Octet): (t: seq<char>)
    ensures |t| == 4
  {
    [Index(First(a)), Index(Second(a, b)), Index(Third(b, c)), Index(Fourth(c))]
  }

  /** The text of some octets, group by group; the last group is filled up with =. */
  function Text(s: seq<Octet>): (t: seq<char>)
    ensures |t| == (|s| + 2) / 3 * 4
  {
    if s == [] then []
    else if |s| == 1 then [Index(First(s[0])), Index(Second(s[0], 0)), '=', '=']
    else if |s| == 2 then [Index(First(s[0])), Index(Second(s[0], s[1])), Index(Third(s[1], 0)), '=']
    else Group(s[0], s[1], s[2]) + Text(s[3..])
  }

  /** The loop of mg_base64_decode on what is left of the source; none if a character is refused. */
  datatype Decoded = Refused | Octets(octets: seq<Octet>)

  function Join(first: seq<Octet>, rest: Decoded): Decoded {
    if rest.Refused? then Refused else Octets(first + rest.octets)
  }

  function FirstOctet(a: Six, b: Six): Octet {
    a * 4 + b / 16
  }

  function SecondOctet(b: Six, c: Six): Octet {
    b % 16 * 16 + c / 4
  }

  function ThirdOctet(c: Six, d: Six): Octet {
    c % 4 * 64 + d
  }

  /** What four characters give: the third and the fourth may be =. */
  function FourChars(t: seq<char>): (r: Decoded)
    requires |t| == 4
  {
    var a, b, c, d := Reverse(t[0]), Reverse(t[1]), Reverse(t[2]), Reverse(t[3]);
    if a == 64 || a < 0 || b == 64 || b < 0 || c < 0 || d < 0 then Refused
    else
      Octets([FirstOctet(a, b)]
             + (if t[2] == '=' then []
                else [SecondOctet(b, c)] + (if t[3] == '=' then [] else [ThirdOctet(c, d)])))
  }

  function Decode(t: seq<char>): Decoded {
    if |t| < 4 then Octets([])
    else
      var first := FourChars(t[..4]);
      if first.Refused? then Refused else Join(first.octets, Decode(t[4..]))
  }

  lemma GroupBack(a: Octet, b: Octet, c: Octet)
    ensures FourChars(Group(a, b, c)) == Octets([a, b, c])
  {
    hide Index, Reverse, First, Second, Third, Fourth, FirstOctet, SecondOctet, ThirdOctet;
    SixBits(a, b, c);
  }

  /** The four numbers of six bits of three octets. */
  lemma SixBits(a: Octet, b: Octet, c: Octet)
    ensures var w, x, y, z := First(a), Second(a, b), Third(b, c), Fourth(c);
            FirstOctet(w, x) == a && SecondOctet(x, y) == b && ThirdOctet(y, z) == c
  {}

  /** Decoding undoes encoding, for any octets. */
  lemma {:induction false} RoundTrip(s: seq<Octet>)
    ensures Decode(Text(s)) == Octets(s)
    decreases |s|
  {
    hide Index, Reverse, First, Second, Third, Fourth, FourChars, Group;
    var t := Text(s);
    if |s| == 1 || |s| == 2 {
      assert t[..4] == t && t[4..] == [];
      assert s == [s[0]] || s == [s[0], s[1]];
      LastBack(s);
    } else if |s| >= 3 {
      assert t[..4] == Group(s[0], s[1], s[2]) && t[4..] == Text(s[3..]);
      GroupBack(s[0], s[1], s[2]);
      RoundTrip(s[3..]);
      assert [s[0], s[1], s[2]] + s[3..] == s;
    }
  }

  lemma LastBack(s: seq<Octet>)
    requires |s| == 1 || |s| == 2
    ensures FourChars(Text(s)) == Octets(s)
  {
    hide Text, FourChars;
    if |s| == 1 {
      OneBack(s[0]);
      assert s == [s[0]];
    } else {
      TwoBack(s[0], s[1]);
      assert s == [s[0], s[1]];
    }
  }

  lemma OneBack(a: Octet)
    ensures FourChars(Text([a])) == Octets([a])
  {
    hide Index, Reverse, First, Second, Third, Fourth, FirstOctet, SecondOctet, ThirdOctet;
    SixBits(a, 0, 0);
  }

  lemma TwoBack(a: Octet, b: Octet)
    ensures FourChars(Text([a, b])) == Octets([a, b])
  {
    hide Index, Reverse, First, Second, Third, Fourth, FirstOctet, SecondOctet, ThirdOctet;
    SixBits(a, b, 0);
  }

  // The alphabet and the bits

  /** The base 64 alphabet, table 1 of RFC 4648. */
  const ALPHABET := UPPER_LETTERS + LOWER_LETTERS + DIGITS + "+/"

  /** mg_b64idx is the alphabet. */
  lemma IndexIsAlphabet(c: Six)
    ensures |ALPHABET| == 64 && Index(c) == ALPHABET[c]
  {
    var alphabet := AlphabetInOrder();
  }

  lemma AlphabetInOrder() returns (alphabet: seq<char>)
    ensures alphabet == ALPHABET && |alphabet| == 64
    ensures forall i: Six :: alphabet[i] == Index(i)
  {
    hide Index, Place;
    var lower, upper := LettersInOrder();
    var digits := DIGITS;
    forall i | 0 <= i < 10
      ensures digits[i] as int == '0' as int + i
    {
      DigitCodes(i);
    }
    alphabet := upper + lower + digits + "+/";
    forall i: Six
      ensures alphabet[i] == Index(i)
    {
      OneAfterAnother(upper, lower, digits, i);
    }
  }

  lemma OneAfterAnother(upper: seq<char>, lower: seq<char>, digits: seq<char>, c: Six)
    requires |upper| == |lower| == 26 && |digits| == 10
    requires forall i :: 0 <= i < 26 ==> lower[i] as int == 'a' as int + i && upper[i] as int == 'A' as int + i
    requires forall i :: 0 <= i < 10 ==> digits[i] as int == '0' as int + i
    ensures (upper + lower + digits + "+/")[c] == Index(c)
  {
    hide Reverse;
  }

  /** mg_b64rev is the place in the alphabet; 64 stands for the padding, and -1 for every other character. */
  lemma ReverseIsPlace(c: char)
    ensures Reverse(c) == if c == '=' then 64 else Place(c, ALPHABET)
  {
    var alphabet := AlphabetInOrder();
    AlphabetPlace(c, alphabet);
  }

  lemma AlphabetPlace(c: char, alphabet: seq<char>)
    requires |alphabet| == 64 && forall i: Six :: alphabet[i] == Index(i)
    ensures Reverse(c) == if c == '=' then 64 else Place(c, alphabet)
  {
    hide Index, Reverse;
    if 0 <= Reverse(c) < 64 {
      IndexOfReverse(c);
      assert c == alphabet[Reverse(c)];
    }
    var i := Place(c, alphabet);
    if i >= 0 { assert c == Index(i); }
  }

  lemma IndexOfReverse(c: char)
    requires 0 <= Reverse(c) < 64
    ensures Index(Reverse(c)) == c
  {}

  /** Three octets from i on as a number of 24 bits; behind the end there are zeros. */
  function Number(s: seq<Octet>, i: nat): nat {
    OctetAt(s, i) * 0x1_0000 + OctetAt(s, i + 1) * 0x100 + OctetAt(s, i + 2)
  }

  function OctetAt(s: seq<Octet>, i: nat): Octet {
    if i < |s| then s[i] else 0
  }

  /** The j-th of the four digits of a number to the base 64, the highest first. */
  function SixOf(n: nat, j: nat): Six
    requires j < 4
    decreases 4 - j
  {
    if j == 3 then n % 64 else SixOf(n / 64, j + 1)
  }

  /**
   * Section 4 of RFC 4648: every three octets are a number of 24 bits, its four parts of six bits are places in
   * the alphabet, and a part behind the last bit of the octets is the padding.
   */
  lemma {:induction false} TextIsBits(s: seq<Octet>, j: nat)
    requires j < |Text(s)|
    ensures var i := j / 4 * 3;
            Text(s)[j] == if 6 * (j % 4) >= 8 * (|s| - i) then '=' else ALPHABET[SixOf(Number(s, i), j % 4)]
    decreases |s|
  {
    hide Index, Number, SixOf, Text;
    if j < 4 {
      FirstGroup(s, j);
    } else {
      TextBehind(s);
      TextIsBits(s[3..], j - 4);
      NumberBehind(s, (j - 4) / 4 * 3);
      FourOn(j);
    }
  }

  lemma FourOn(j: nat)
    requires j >= 4
    ensures j / 4 * 3 == (j - 4) / 4 * 3 + 3 && (j - 4) % 4 == j % 4
  {}

  lemma TextBehind(s: seq<Octet>)
    requires |Text(s)| > 4
    ensures |s| >= 3 && Text(s)[4..] == Text(s[3..])
  {
    hide Group;
  }

  lemma NumberBehind(s: seq<Octet>, i: nat)
    requires |s| >= 3
    ensures Number(s[3..], i) == Number(s, i + 3)
  {}

  lemma FirstGroup(s: seq<Octet>, j: nat)
    requires j < 4 && j < |Text(s)|
    ensures Text(s)[j] == if 6 * j >= 8 * |s| then '=' else ALPHABET[SixOf(Number(s, 0), j)]
  {
    hide Index, First, Second, Third, Fourth, SixOf;
    NumberParts(OctetAt(s, 0), OctetAt(s, 1), OctetAt(s, 2));
    IndexIsAlphabet(SixOf(Number(s, 0), j));
  }

  /** How the encoder takes the four parts from the octets. */
  lemma NumberParts(a: Octet, b: Octet, c: Octet)
    ensures var n := a * 0x1_0000 + b * 0x100 + c;
            && SixOf(n, 0) == First(a) && SixOf(n, 1) == Second(a, b)
            && SixOf(n, 2) == Third(b, c) && SixOf(n, 3) == Fourth(c)
  {
    SixJoined(a, b, c);
    hide First, Second, Third, Fourth;
    SixDigits(First(a), Second(a, b), Third(b, c), Fourth(c));
  }

  lemma SixJoined(a: Octet, b: Octet, c: Octet)
    ensures var w: nat, x: nat, y: nat, z: nat := First(a), Second(a, b), Third(b, c), Fourth(c);
            a * 0x1_0000 + b * 0x100 + c == ((w * 64 + x) * 64 + y) * 64 + z
  {}

  lemma SixDigits(w: nat, x: nat, y: nat, z: nat)
    requires w < 64 && x < 64 && y < 64 && z < 64
    ensures var n := ((w * 64 + x) * 64 + y) * 64 + z;
            SixOf(n, 0) == w && SixOf(n, 1) == x && SixOf(n, 2) == y && SixOf(n, 3) == z
  {
    hide SixOf;
    var n := ((w * 64 + x) * 64 + y) * 64 + z;
    DropSix(n, (w * 64 + x) * 64 + y, z);
    DropSix(n / 64, w * 64 + x, y);
    DropSix(n / 64 / 64, w, x);
    DropSix(w, 0, w);
  }

  lemma DropSix(n: nat, q: nat, r: Six)
    requires n == q * 64 + r
    ensures n / 64 == q && SixOf(n, 3) == r
    ensures forall j :: 0 <= j < 3 ==> SixOf(n, j) == SixOf(q, j + 1)
  {}

  // What the decoder takes

  predicate InAlphabet(c: char) {
    c in ALPHABET
  }

  /** Four characters of the alphabet, of which the last two may be padding. */
  predicate Takable(t: seq<char>)
    requires |t| == 4
  {
    InAlphabet(t[0]) && InAlphabet(t[1]) && (InAlphabet(t[2]) || t[2] == '=') && (InAlphabet(t[3]) || t[3] == '=')
  }

  /** What a character is worth: its place, and nothing for the padding. */
  function Worth(c: char): Six {
    if InAlphabet(c) then Place(c, ALPHABET) else 0
  }

  /** Four characters as a number of 24 bits */
  function NumberOf(t: seq<char>): (n: nat)
    requires |t| == 4
    ensures n < 0x100_0000
  {
    Worth(t[0]) * 0x4_0000 + Worth(t[1]) * 0x1000 + Worth(t[2]) * 64 + Worth(t[3])
  }

  /** The three octets of a number of 24 bits */
  function OctetsOf(n: nat): seq<Octet>
    requires n < 0x100_0000
  {
    [n / 0x100 / 0x100, n / 0x100 % 0x100, n % 0x100]
  }

  /** The octets of four characters: those of their number, without as many as are padding. */
  function Said(t: seq<char>): seq<Octet>
    requires |t| == 4
  {
    OctetsOf(NumberOf(t))[..if t[2] == '=' then 1 else if t[3] == '=' then 2 else 3]
  }

  /** Four characters are refused exactly if they are not of the alphabet and its padding. */
  lemma FourAsNumber(t: seq<char>)
    requires |t| == 4
    ensures FourChars(t).Refused? <==> !Takable(t)
    ensures Takable(t) ==> FourChars(t) == Octets(Said(t))
  {
    WhichFour(t);
    if Takable(t) {
      FourOctets(t);
    }
  }

  lemma WhichFour(t: seq<char>)
    requires |t| == 4
    ensures FourChars(t).Refused? <==> !Takable(t)
  {
    FourPlaces(t);
    FourOf(t);
    hide Reverse, FourChars, Worth, OctetsOf, InAlphabet;
    assert Placed(t[0]) && Placed(t[1]) && Placed(t[2]) && Placed(t[3]);
  }

  lemma FourOctets(t: seq<char>)
    requires |t| == 4 && Takable(t)
    ensures FourChars(t) == Octets(Said(t))
  {
    hide FourChars, OctetsOf, InAlphabet, Reverse, Worth, FirstOctet, SecondOctet, ThirdOctet;
    FourPlaces(t);
    FourOf(t);
    var w, x, y, z := Worth(t[0]), Worth(t[1]), Worth(t[2]), Worth(t[3]);
    assert Placed(t[0]) && Placed(t[1]) && Placed(t[2]) && Placed(t[3]);
    WholeOctets(w, x, y, z);
    assert OctetsOf(NumberOf(t)) == [FirstOctet(w, x), SecondOctet(x, y), ThirdOctet(y, z)];
    hide NumberOf;
    FirstOctets(OctetsOf(NumberOf(t)));
  }

  lemma FirstOctets(octets: seq<Octet>)
    requires |octets| == 3
    ensures octets[..1] == [octets[0]] && octets[..2] == [octets[0], octets[1]]
    ensures octets[..3] == [octets[0], octets[1], octets[2]]
  {}

  lemma FourPlaces(t: seq<char>)
    requires |t| == 4
    ensures forall i :: 0 <= i < 4 ==> Placed(t[i])
  {
    forall i | 0 <= i < 4
      ensures Placed(t[i])
    {
      CharPlaced(t[i]);
    }
  }

  /** What mg_b64rev says of a character, by its place. */
  predicate Placed(c: char) {
    && (InAlphabet(c) <==> 0 <= Reverse(c) < 64) && (c == '=' <==> Reverse(c) == 64)
    && (InAlphabet(c) ==> Worth(c) == Reverse(c)) && (c == '=' ==> Worth(c) == 0)
  }

  lemma CharPlaced(c: char)
    ensures Placed(c)
  {
    hide Reverse, Index;
    ReverseIsPlace(c);
    var alphabet := AlphabetInOrder();
    if c in alphabet {
      var i: Six :| c == alphabet[i];
      IndexReverse(i);
    }
  }

  lemma IndexReverse(i: Six)
    ensures Reverse(Index(i)) == i && Index(i) != '='
  {}

  lemma WholeOctets(w: Six, x: Six, y: Six, z: Six)
    ensures OctetsOf(w * 0x4_0000 + x * 0x1000 + y * 64 + z) == [FirstOctet(w, x), SecondOctet(x, y), ThirdOctet(y, z)]
  {
    JoinedBits(w, x, y, z);
    hide FirstOctet, SecondOctet, ThirdOctet;
    SplitOctets(w * 0x4_0000 + x * 0x1000 + y * 64 + z, FirstOctet(w, x), SecondOctet(x, y), ThirdOctet(y, z));
  }

  lemma JoinedBits(w: Six, x: Six, y: Six, z: Six)
    ensures (FirstOctet(w, x) * 0x100 + SecondOctet(x, y)) * 0x100 + ThirdOctet(y, z)
            == w * 0x4_0000 + x * 0x1000 + y * 64 + z
  {}

  lemma SplitOctets(n: nat, a: nat, b: nat, c: nat)
    requires n == (a * 0x100 + b) * 0x100 + c && a < 0x100 && b < 0x100 && c < 0x100
    ensures OctetsOf(n) == [a, b, c]
  {
    DropEight(n, a * 0x100 + b, c);
    DropEight(n / 0x100, a, b);
  }

  lemma DropEight(n: nat, q: nat, r: nat)
    requires n == q * 0x100 + r && r < 0x100
    ensures n / 0x100 == q && n % 0x100 == r
  {}

  predicate AllTakable(t: seq<char>) {
    forall g :: 0 <= g < |t| / 4 ==> Takable(t[4 * g..4 * g + 4])
  }

  function AllSaid(t: seq<char>): seq<Octet> {
    if |t| < 4 then [] else Said(t[..4]) + AllSaid(t[4..])
  }

  lemma GroupsBehind(t: seq<char>)
    requires |t| >= 4
    ensures AllTakable(t) <==> Takable(t[..4]) && AllTakable(t[4..])
  {
    hide Takable;
    var u := t[4..];
    assert t[4 * 0..4 * 0 + 4] == t[..4] && |u| / 4 == |t| / 4 - 1;
    forall g | 0 <= g < |u| / 4
      ensures u[4 * g..4 * g + 4] == t[4 * (g + 1)..4 * (g + 1) + 4]
    {
    }
    if Takable(t[..4]) && AllTakable(u) {
      forall g | 0 <= g < |t| / 4
        ensures Takable(t[4 * g..4 * g + 4])
      {
        if g > 0 { assert u[4 * (g - 1)..4 * (g - 1) + 4] == t[4 * g..4 * g + 4]; }
      }
    } else if AllTakable(t) {
      forall g | 0 <= g < |u| / 4
        ensures Takable(u[4 * g..4 * g + 4])
      {
        assert u[4 * g..4 * g + 4] == t[4 * (g + 1)..4 * (g + 1) + 4];
      }
    }
  }

  /** A text is taken exactly if all its groups of four are; fewer than four characters at its end are ignored. */
  lemma {:induction false} DecodedText(t: seq<char>)
    ensures Decode(t) == if AllTakable(t) then Octets(AllSaid(t)) else Refused
  {
    hide FourChars, Takable, Said, AllTakable;
    if |t| >= 4 {
      FourAsNumber(t[..4]);
      DecodedText(t[4..]);
      GroupsBehind(t);
    } else {
      NoGroups(t);
    }
  }

  lemma NoGroups(t: seq<char>)
    requires |t| < 4
    ensures AllTakable(t)
  {}

  // The encoder, one octet at a time

  /** The characters that are complete after s. */
  function Complete(s: seq<Octet>): (t: seq<char>)
    ensures |t| == |s| / 3 * 4 + |s| % 3
  {
    if s == [] then []
    else if |s| == 1 then [Index(First(s[0]))]
    else if |s| == 2 then [Index(First(s[0])), Index(Second(s[0], s[1]))]
    else Group(s[0], s[1], s[2]) + Complete(s[3..])
  }

  /** The bits of s that are still to go into a character. */
  function Pending(s: seq<Octet>): (p: Six)
    requires |s| % 3 != 0
  {
    var last := s[|s| - 1];
    if |s| % 3 == 1 then Second(last, 0) else Third(last, 0)
  }

  /** The characters that one octet more completes. */
  function Added(s: seq<Octet>, ch: Octet): seq<char> {
    if |s| % 3 == 0 then [Index(First(ch))]
    else if |s| % 3 == 1 then [Index(Second(s[|s| - 1], ch))]
    else [Index(Third(s[|s| - 1], ch)), Index(Fourth(ch))]
  }

  /** What an octet completes does not depend on full groups before. */
  lemma AddedBehind(s: seq<Octet>, ch: Octet)
    ensures |s| >= 3 ==> Added(s, ch) == Added(s[3..], ch)
  {
    hide Index, First, Second, Third, Fourth;
    if |s| > 3 {
      assert s[3..][|s| - 4] == s[|s| - 1];
    }
  }

  /** What one octet adds. */
  lemma {:induction false} CompleteSnoc(s: seq<Octet>, ch: Octet)
    ensures Complete(s + [ch]) == Complete(s) + Added(s, ch)
    decreases |s|
  {
    hide Index, Reverse, Group, First, Second, Third, Fourth, Added;
    AddedBehind(s, ch);
    var t := s + [ch];
    if |s| >= 3 {
      var u := s[3..];
      assert t[3..] == u + [ch] && t[0] == s[0] && t[1] == s[1] && t[2] == s[2];
      CompleteSnoc(u, ch);
      Assoc(Group(s[0], s[1], s[2]), Complete(u), Added(u, ch));
    } else if |s| == 2 {
      SnocTwo(s[0], s[1], ch);
      assert s == [s[0], s[1]] && t == [s[0], s[1], ch];
    } else if |s| == 1 {
      SnocOne(s[0], ch);
      assert s == [s[0]] && t == [s[0], ch];
    } else {
      SnocNone(ch);
      assert s == [] && t == [ch];
    }
  }

  lemma SnocNone(ch: Octet)
    ensures Complete([ch]) == Complete([]) + Added([], ch)
  {
    hide Index, First;
  }

  lemma SnocOne(a: Octet, ch: Octet)
    ensures Complete([a, ch]) == Complete([a]) + Added([a], ch)
  {
    hide Index, First, Second;
  }

  lemma SnocTwo(a: Octet, b: Octet, ch: Octet)
    ensures Complete([a, b, ch]) == Complete([a, b]) + Added([a, b], ch)
  {
    hide Index, First, Second, Third, Fourth;
    assert [a, b, ch][3..] == [];
    assert Complete([a, b, ch]) == Group(a, b, ch) + [];
  }

  lemma Assoc(a: seq<char>, b: seq<char>, c: seq<char>)
    ensures a + (b + c) == a + b + c
  {}

  lemma PendingBehind(s: seq<Octet>)
    requires |s| >= 3
    ensures |s[3..]| % 3 == |s| % 3 && (|s| % 3 != 0 ==> Pending(s[3..]) == Pending(s))
  {
    hide Second, Third;
    var q, r := |s| / 3, |s| % 3;
    assert |s[3..]| == (q - 1) * 3 + r;
    if r != 0 { assert s[3..][|s| - 4] == s[|s| - 1]; }
  }

  /** The text is what is complete, the bits still pending, and =. */
  lemma {:induction false} TextFromComplete(s: seq<Octet>)
    ensures Text(s)
            == Complete(s) + (if |s| % 3 == 0 then []
                              else if |s| % 3 == 1 then [Index(Pending(s)), '=', '=']
                              else [Index(Pending(s)), '='])
    decreases |s|
  {
    hide Index, Reverse, First, Second, Third, Fourth, Group;
    if |s| >= 3 {
      var u := s[3..];
      TextFromComplete(u);
      PendingBehind(s);
      Assoc(Group(s[0], s[1], s[2]), Complete(u), Text(u)[|Complete(u)|..]);
    }
  }

  /** The characters of a buffer, up to n, and the bits that wait in the cell behind them. */
  ghost predicate Encoded(to: array<char>, n: nat, s: seq<Octet>)
    reads to
  {
    && n == |Complete(s)| <= to.Length && to[..n] == Complete(s)
    && (|s| % 3 != 0 ==> n < to.Length && to[n] as int == Pending(s))
  }

  lemma PendingPlus(s: seq<Octet>, ch: Octet)
    ensures |s| % 3 == 1 ==> Pending(s) + ch / 16 == Second(s[|s| - 1], ch)
    ensures |s| % 3 == 2 ==> Pending(s) + ch / 64 == Third(s[|s| - 1], ch)
    ensures |s| % 3 == 0 ==> Pending(s + [ch]) == ch % 4 * 16
    ensures |s| % 3 == 1 ==> Pending(s + [ch]) == ch % 16 * 4
    ensures ch / 4 == First(ch) && ch % 64 == Fourth(ch)
  {}

  lemma Positions(s: seq<Octet>)
    ensures |Complete(s)| % 4 % 3 == |s| % 3 == |Complete(s)| % 4
  {
    hide Complete;
    Remainders(|s| / 3, |s| % 3);
  }

  lemma Remainders(q: nat, r: nat)
    requires r < 3
    ensures (q * 4 + r) % 4 == r && r % 3 == r
  {}

  /** mg_base64_update. Bits that do not fill a character wait in the next cell. */
  method Update(ch: Octet, to: array<char>, n0: nat, ghost s: seq<Octet>) returns (n: nat)
    requires Encoded(to, n0, s) && n0 + 2 <= to.Length
    modifies to
    ensures Encoded(to, n, s + [ch])
  {
    hide Complete, Pending, Index, First, Second, Third, Fourth;
    Positions(s);
    PendingPlus(s, ch);
    CompleteSnoc(s, ch);
    n := n0;
    var rem := n % 4 % 3;
    if rem == 0 {
      to[n] := Index(ch / 4);
      n := n + 1;
      to[n] := (ch % 4 * 16) as char;
    } else if rem == 1 {
      to[n] := Index(to[n] as int + ch / 16);
      n := n + 1;
      to[n] := (ch % 16 * 4) as char;
    } else {
      to[n] := Index(to[n] as int + ch / 64);
      n := n + 1;
      to[n] := Index(ch % 64);
      n := n + 1;
    }
    assert to[..n0] == old(to[..n0]);
    assert to[..n] == to[..n0] + to[n0..n];
  }

  /** mg_base64_final: pending bits become a character, and = fills the last group. */
  method Final(to: array<char>, n0: nat, ghost s: seq<Octet>) returns (n: nat)
    requires Encoded(to, n0, s) && to.Length > |Text(s)|
    modifies to
    ensures n == |Text(s)| && to[..n] == Text(s) && to[n] == '\0'
  {
    hide Complete, Text, Index, Second, Third, Fourth, Encoded;
    EncodedLength(to, n0, s);
    Positions(s);
    TextFromComplete(s);
    n := n0;
    var saved := n;
    if n % 4 != 0 {
      n := Update(0, to, n, s);
      PendingLast(to, n, s);
    }
    if saved % 4 == 2 {
      n := n - 1;
    }
    ghost var m := n;
    while n % 4 != 0
      invariant m <= n <= |Text(s)| && to[..n] == Text(s)[..n]
      decreases |Text(s)| - n
    {
      to[n] := '=';
      n := n + 1;
    }
    to[n] := '\0';
  }

  lemma EncodedLength(to: array<char>, n: nat, s: seq<Octet>)
    requires Encoded(to, n, s)
    ensures n == |Complete(s)| <= to.Length && to[..n] == Complete(s)
  {}

  /** The octet of zeros that mg_base64_final adds only brings out the pending bits. */
  lemma PendingLast(to: array<char>, n: nat, s: seq<Octet>)
    requires Encoded(to, n, s + [0]) && |s| % 3 != 0
    ensures n == |Complete(s)| + |s| % 3 <= to.Length
    ensures to[..|Complete(s)| + 1] == Complete(s) + [Index(Pending(s))]
  {
    hide Complete, Index, Second, Third, Fourth;
    CompleteSnoc(s, 0);
    assert to[..n][..|Complete(s)| + 1] == to[..|Complete(s)| + 1];
  }

  /** mg_base64_encode. The buffer has room for the text and a zero. */
  method Encode(p: seq<Octet>, to: array<char>) returns (len: nat)
    requires to.Length > (|p| + 2) / 3 * 4
    modifies to
    ensures len == |Text(p)| == (|p| + 2) / 3 * 4 && to[..len] == Text(p) && to[len] == '\0'
  {
    hide Text, Encoded;
    len := 0;
    StartEncoding(to);
    for i := 0 to |p|
      invariant Encoded(to, len, p[..i])
    {
      EncodedLength(to, len, p[..i]);
      RoomForTwo(p, i);
      assert p[..i + 1] == p[..i] + [p[i]];
      len := Update(p[i], to, len, p[..i]);
    }
    assert p[..|p|] == p;
    len := Final(to, len, p);
  }

  lemma StartEncoding(to: array<char>)
    ensures Encoded(to, 0, [])
  {}

  lemma RoomForTwo(p: seq<Octet>, i: nat)
    requires i < |p|
    ensures |Complete(p[..i])| + 2 <= (|p| + 2) / 3 * 4
  {
    hide Complete;
  }

  /** mg_base64_decode; 0 is also what it returns for text it refuses. */
  method DecodeText(src: seq<char>, dst: array<Octet>) returns (len: nat)
    requires dst.Length > |src| / 4 * 3
    modifies dst
    ensures match Decode(src)
            case Refused => len == 0
            case Octets(s) => len == |s| < dst.Length && dst[..len] == s && dst[len] == 0
  {
    hide Reverse, FourChars, Decode;
    len := 0;
    var p := 0;
    ghost var k := 0;
    assert src[0..] == src;
    DecodeStart(src);
    while p + 3 < |src|
      invariant p == 4 * k <= |src| && len <= 3 * k
      invariant Decode(src) == Join(dst[..len], Decode(src[p..]))
    {
      DecodeStep(src, p, dst[..len]);
      var a, b, c, d := Reverse(src[p]), Reverse(src[p + 1]), Reverse(src[p + 2]), Reverse(src[p + 3]);
      if a == 64 || a < 0 || b == 64 || b < 0 || c < 0 || d < 0 {
        return 0;
      }
      assert src[p..p + 4] == [src[p], src[p + 1], src[p + 2], src[p + 3]];
      len := StoreGroup(a, b, c, d, src[p + 2], src[p + 3], src[p..p + 4], dst, len);
      p, k := p + 4, k + 1;
    }
    DecodeEnd(src[p..], dst[..len]);
    dst[len] := 0;
  }

  lemma DecodeStart(src: seq<char>)
    ensures Decode(src) == Join([], Decode(src))
  {
    if Decode(src).Octets? { assert [] + Decode(src).octets == Decode(src).octets; }
  }

  lemma DecodeEnd(t: seq<char>, before: seq<Octet>)
    requires |t| < 4
    ensures Join(before, Decode(t)) == Octets(before)
  {
    assert before + [] == before;
  }

  /** The octets of four characters that are not refused. */
  method StoreGroup(a: int, b: int, c: int, d: int, third: char, fourth: char, ghost t: seq<char>, dst: array<Octet>,
                    len0: nat)
    returns (len: nat)
    requires |t| == 4 && t[2] == third && t[3] == fourth
    requires a == Reverse(t[0]) && b == Reverse(t[1]) && c == Reverse(t[2]) && d == Reverse(t[3])
    requires 0 <= a < 64 && 0 <= b < 64 && 0 <= c && 0 <= d && len0 + 3 <= dst.Length
    modifies dst
    ensures FourChars(t).Octets? && len == len0 + |FourChars(t).octets| <= len0 + 3
    ensures dst[..len] == old(dst[..len0]) + FourChars(t).octets
  {
    hide Reverse, FourChars;
    FourOf(t);
    len := len0;
    dst[len] := a * 4 + b / 16;
    len := len + 1;
    if third != '=' {
      dst[len] := b % 16 * 16 + c / 4;
      len := len + 1;
      if fourth != '=' {
        dst[len] := c % 4 * 64 + d;
        len := len + 1;
      }
    }
  }

  /** FourChars, spelled out. */
  lemma FourOf(t: seq<char>)
    requires |t| == 4
    ensures var a, b, c, d := Reverse(t[0]), Reverse(t[1]), Reverse(t[2]), Reverse(t[3]);
            if a == 64 || a < 0 || b == 64 || b < 0 || c < 0 || d < 0 then FourChars(t) == Refused
            else if t[2] == '=' then FourChars(t) == Octets([FirstOctet(a, b)])
            else if t[3] == '=' then FourChars(t) == Octets([FirstOctet(a, b), SecondOctet(b, c)])
            else FourChars(t) == Octets([FirstOctet(a, b), SecondOctet(b, c), ThirdOctet(c, d)])
  {}

  lemma DecodeStep(src: seq<char>, p: nat, before: seq<Octet>)
    requires p + 3 < |src|
    ensures var first := FourChars(src[p..p + 4]);
            Join(before, Decode(src[p..]))
            == if first.Refused? then Refused else Join(before + first.octets, Decode(src[p + 4..]))
    ensures FourChars(src[p..p + 4]).Refused? <==>
              (var a, b, c, d := Reverse(src[p]), Reverse(src[p + 1]), Reverse(src[p + 2]), Reverse(src[p + 3]);
               a == 64 || a < 0 || b == 64 || b < 0 || c < 0 || d < 0)
  {
    FourOf(src[p..p + 4]);
    hide FourChars;
    assert src[p..][..4] == src[p..p + 4] && src[p..][4..] == src[p + 4..];
    var first, rest := FourChars(src[p..p + 4]), Decode(src[p + 4..]);
    if first.Octets? && rest.Octets? {
      assert before + (first.octets + rest.octets) == before + first.octets + rest.octets;
    }
  }
}
