/** How the parser recognises header names and values while it reads them. */
module HttpNames {
  import opened Bytes
  import opened HttpParser
  import opened HttpLists

  /** A name as it is compared: token characters in lower case. */
  function LowerName(s: seq<Byte>): (r: seq<Byte>)
    ensures |r| == |s| && forall i :: 0 <= i < |s| ==> r[i] == TokenOf(s[i])
  {
    seq(|s|, i requires 0 <= i < |s| => TokenOf(s[i]))
  }

  predicate Tokens(s: seq<Byte>) {
    forall i :: 0 <= i < |s| ==> IsToken(s[i])
  }

  // Names

  /** The header state that stands for having read the lower-case name w. */
  function NameState(w: seq<Byte>): HeaderState {
    if w == "c" then C
    else if w == "co" then CO
    else if w == "con" then CON
    else if w <= NConnection.Text() then Reading(w, NConnection)
    else if w <= NProxyConnection.Text() then Reading(w, NProxyConnection)
    else if w <= NContentLength.Text() then Reading(w, NContentLength)
    else if w <= NTransferEncoding.Text() then Reading(w, NTransferEncoding)
    else if w <= NUpgrade.Text() then Reading(w, NUpgrade)
    else General
  }

  function Reading(w: seq<Byte>, n: Name): HeaderState {
    if w == n.Text() then Known(n.Header()) else Matching(n)
  }

  /** The index is that of the last character read, as long as there is something to match. */
  predicate NameRead(k: Core, w: seq<Byte>) {
    && w != [] && k.header == NameState(w)
    && (k.header.C? || k.header.CO? || k.header.CON? || k.header.Matching? ==> k.index == |w| - 1)
  }

  lemma PrefixStep(word: seq<Byte>, w: seq<Byte>, c: Byte)
    ensures w + [c] <= word <==> w <= word && |w| < |word| && word[|w|] == c
  {
    if w + [c] <= word {
      assert word[..|w| + 1][..|w|] == w;
      assert word[|w|] == (w + [c])[|w|];
    }
  }

  lemma CharDiffers(w: seq<Byte>, word: seq<Byte>, i: nat)
    requires i < |w| && i < |word| && w[i] != word[i]
    ensures !(w <= word)
  {}

  lemma ProperPrefix(w: seq<Byte>, word: seq<Byte>)
    requires w <= word && w != word
    ensures |w| < |word|
  {
    assert word[..|word|] == word;
  }

  /** A nonempty name is the beginning of one header name only, apart from the beginnings of con. */
  lemma OneName(w: seq<Byte>, n: Name, m: Name)
    requires w != [] && n != m && w != "c" && w != "co" && w != "con" && w <= n.Text()
    ensures !(w <= m.Text())
  {
    assert w[0] == n.Text()[0];
    if n.Text()[0] != m.Text()[0] {
      CharDiffers(w, m.Text(), 0);
    } else {
      assert w == n.Text()[..|w|] && "con"[..1] == "c" && "con"[..2] == "co" && n.Text()[..3] == "con";
      assert w[3] == n.Text()[3];
      CharDiffers(w, m.Text(), 3);
    }
  }

  /** With one more character: still a beginning of the name being matched, or of none. */
  lemma MatchStep(w: seq<Byte>, n: Name, c: Byte)
    requires w != [] && w != "c" && w != "co" && w != "con"
    requires w <= n.Text() && w != n.Text()
    ensures NameState(w) == Matching(n) && |w| < |n.Text()|
    ensures NameState(w + [c]) == if n.Text()[|w|] == c then Reading(w + [c], n) else General
  {
    ProperPrefix(w, n.Text());
    assert w + [c] != "c" && w + [c] != "co" && w + [c] != "con" by { ShortNames(w, c); }
    forall m: Name
      ensures w <= m.Text() <==> m == n
      ensures w + [c] <= m.Text() <==> m == n && n.Text()[|w|] == c
    {
      if m != n { OneName(w, n, m); }
      PrefixStep(m.Text(), w, c);
    }
  }

  lemma ShortNames(w: seq<Byte>, c: Byte)
    requires w != [] && w != "c" && w != "co" && w != "con"
    ensures w + [c] != "c" && w + [c] != "co" && w + [c] != "con"
  {
    assert (w + [c])[..|w|] == w;
    assert "co"[..1] == "c" && "con"[..2] == "co";
  }

  /** Past the end of a name, or once it is no beginning of one, nothing is recognised. */
  lemma NoMatchStep(w: seq<Byte>, c: Byte)
    requires w != [] && (NameState(w).General? || NameState(w).Known?)
    ensures NameState(w + [c]) == General
  {
    ShortNames(w, c);
    forall m: Name
      ensures !(w + [c] <= m.Text())
    {
      PrefixStep(m.Text(), w, c);
      forall n: Name | w == n.Text() && n != m
        ensures !(w <= m.Text())
      {
        OneName(w, n, m);
      }
    }
  }

  /** The beginnings of con. */
  lemma ConStep(w: seq<Byte>, c: Byte)
    requires w == "c" || w == "co" || w == "con"
    ensures NameState(w + [c])
            == if w == "c" then (if c == 'o' then CO else General)
               else if w == "co" then (if c == 'n' then CON else General)
               else if c == 'n' then Matching(NConnection)
               else if c == 't' then Matching(NContentLength)
               else General
  {
    var x := w + [c];
    assert NConnection.Text()[..3] == "con" == NContentLength.Text()[..3];
    assert "con"[..1] == "c" && "con"[..2] == "co";
    PrefixStep(NConnection.Text(), w, c);
    PrefixStep(NContentLength.Text(), w, c);
    CharDiffers(x, NProxyConnection.Text(), 0);
    CharDiffers(x, NTransferEncoding.Text(), 0);
    CharDiffers(x, NUpgrade.Text(), 0);
    assert |x| == |w| + 1 && x[|w|] == c && x[0] == 'c';
    if w == "c" {
      assert c == 'o' ==> x == "co";
    } else if w == "co" {
      assert c == 'n' ==> x == "con";
    }
  }

  /** Reading one more character of a name. */
  lemma NameCharRead(k: Core, w: seq<Byte>, ch: Byte)
    requires NameRead(k, w) && IsToken(ch)
    ensures NameRead(FieldChar(k, ch), w + [TokenOf(ch)])
    ensures FieldChar(k, ch) == k.(header := FieldChar(k, ch).header, index := FieldChar(k, ch).index)
  {
    var c := TokenOf(ch);
    if w == "c" || w == "co" || w == "con" {
      ConStep(w, c);
    } else if k.header.Matching? {
      MatchStep(w, k.header.name, c);
      PrefixStep(k.header.name.Text(), w, c);
    } else {
      NoMatchStep(w, c);
    }
  }

  // Values

  /** The first digit and the digits and spaces of a Content-Length value; the parser skips the spaces. */
  predicate IsNumber(v: seq<Byte>) {
    v != [] && IsNum(v[0]) && forall i :: 0 <= i < |v| ==> IsNum(v[i]) || v[i] == ' '
  }

  function NumberOf(v: seq<Byte>): nat {
    if v == [] then 0
    else
      var n, c := NumberOf(v[..|v| - 1]), v[|v| - 1];
      if IsNum(c) then n * 10 + Digit(c) else n
  }

  /** The least number that is too long for the parser. */
  const LENGTH_LIMIT: nat := 18446744073709551610

  /** The value chunked, in any case, and spaces. */
  predicate IsChunked(v: seq<Byte>) {
    IsWord(Chunked, v)
  }

  /** The header state after reading v of a Transfer-Encoding value. */
  predicate ChunkedRead(k: Core, v: seq<Byte>) {
    if IsWord(Chunked, v) then k.header == Found(Chunked)
    else if IsPart(Chunked, v) then k.header == MatchingToken(Chunked) && k.index == |v| - 1
    else k.header == General
  }

  predicate IsConnection(w: seq<Byte>) {
    w == NConnection.Text() || w == NProxyConnection.Text()
  }

  /** What has been read of a value under the lower-case name w, where k0 were the fields before it. */
  predicate ValueRead(k0: Core, k: Core, w: seq<Byte>, v: seq<Byte>) {
    && k == k0.(state := HeaderValue, header := k.header, index := k.index, flags := k.flags, length := k.length)
    && k.errno == OK
    && (if IsConnection(w) then ListRead(k0.flags, k, v)
        else k.flags == k0.flags.(upgrade := k0.flags.upgrade || w == NUpgrade.Text()))
    && (if w == NContentLength.Text() then k.header == Known(ContentLength) && k.length == NumberOf(v)
       else k.length == k0.length)
    && (w == NTransferEncoding.Text() ==> ChunkedRead(k, v))
    && (!IsConnection(w) && w != NContentLength.Text() && w != NTransferEncoding.Text() ==> k.header == General)
  }

  /** A number goes on being read as long as it is not too long. */
  lemma NumberCharRead(k: Core, v: seq<Byte>, ch: Byte)
    requires IsNumber(v + [ch]) && v != [] && k.header == Known(ContentLength) && k.length == NumberOf(v)
             && k.errno == OK
    requires NumberOf(v) < LENGTH_LIMIT
    ensures if NumberOf(v + [ch]) < LENGTH_LIMIT then ValueChar(k, ch) == k.(length := NumberOf(v + [ch]))
            else ValueChar(k, ch).errno == InvalidContentLength
  {
    var w := v + [ch];
    assert w[|w| - 1] == ch && w[..|w| - 1] == v;
  }

  lemma ValueCharRead(k0: Core, k: Core, w: seq<Byte>, v: seq<Byte>, ch: Byte)
    requires ValueRead(k0, k, w, v) && v != [] && ch != CR && ch != LF
    requires w == NContentLength.Text()
             ==> IsNumber(v + [ch]) && NumberOf(v + [ch]) < LENGTH_LIMIT && NumberOf(v) < LENGTH_LIMIT
    ensures ValueRead(k0, ValueChar(k, ch), w, v + [ch])
  {
    hide ListRead, ChunkedRead, IsNumber, NumberOf, ValueChar;
    DifferentNames(w);
    if w == NContentLength.Text() {
      NumberCharRead(k, v, ch);
    } else if w == NTransferEncoding.Text() {
      TransferCharRead(k, v, ch);
    } else if IsConnection(w) {
      ListCharRead(k0.flags, k, v, ch);
    } else {
      OtherCharRead(k, ch);
    }
  }

  lemma DifferentNames(w: seq<Byte>)
    ensures w == NContentLength.Text() || w == NTransferEncoding.Text() || w == NUpgrade.Text() ==> !IsConnection(w)
    ensures w == NContentLength.Text() ==> w != NTransferEncoding.Text() && w != NUpgrade.Text()
    ensures w == NTransferEncoding.Text() ==> w != NUpgrade.Text()
  {}

  lemma TransferCharRead(k: Core, v: seq<Byte>, ch: Byte)
    requires ChunkedRead(k, v) && v != []
    ensures ChunkedRead(ValueChar(k, ch), v + [ch])
    ensures ValueChar(k, ch) == k.(header := ValueChar(k, ch).header, index := ValueChar(k, ch).index)
  {
    hide IsWord, IsPart, Lower;
    WordStep(Chunked, v, ch);
    OneWord(v);
    if IsPart(Chunked, v) { FirstLetterOf(Chunked, v); }
  }

  lemma OtherCharRead(k: Core, ch: Byte)
    requires k.header == General
    ensures ValueChar(k, ch) == k
  {}

  /** A prefix of a number that is not too long is not too long. */
  lemma {:induction false} PrefixNumber(v: seq<Byte>, n: nat)
    requires n <= |v|
    ensures NumberOf(v[..n]) <= NumberOf(v)
    decreases |v|
  {
    if n < |v| {
      var u := v[..|v| - 1];
      PrefixNumber(u, n);
      assert u[..n] == v[..n];
    } else {
      assert v[..n] == v;
    }
  }

  /** The first character of a value. */
  lemma ValueStartRead(k: Core, w: seq<Byte>, ch: Byte)
    requires NameRead(k, w) && k.errno == OK
    requires w == NContentLength.Text() ==> IsNum(ch)
    ensures ValueRead(k, StepHeaderValueStart(k, ch).core, w, [ch])
    ensures var o := StepHeaderValueStart(k, ch); o == Keep(FieldValue, Go(o.core, HeaderValue))
  {
    hide NameState, ListRead, IsWord, IsPart, Lower;
    KnownNames(w);
    DifferentNames(w);
    if w == NContentLength.Text() {
      assert [ch][..0] == [] && NumberOf([ch]) == Digit(ch);
    } else if w == NTransferEncoding.Text() {
      WordBegins(Chunked, ch);
    } else if IsConnection(w) {
      ListStarts(k, ch);
    }
  }

  /** A name is recognised exactly when it is complete. */
  lemma KnownNames(w: seq<Byte>)
    ensures NameState(w) == Known(ContentLength) <==> w == "content-length"
    ensures NameState(w) == Known(TransferEncoding) <==> w == "transfer-encoding"
    ensures NameState(w) == Known(Upgrade) <==> w == "upgrade"
    ensures NameState(w) == Known(Connection) <==> w == "connection" || w == "proxy-connection"
    ensures InName(NameState(w))
  {
    if n: Name :| w == n.Text() {
      forall m: Name | m != n
        ensures !(w <= m.Text())
      {
        OneName(w, n, m);
      }
    }
  }
}
