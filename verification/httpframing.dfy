/** How RFC 7230 finds the end of a response's body, and when the parser finds the same. */
module HttpFraming {
  import opened Bytes
  import opened HttpParser
  import opened HttpLists
  import opened HttpNames
  import opened HttpMessages
  import opened HttpResponses

  // Section 3.3.3 of RFC 7230, for the response to a request other than HEAD and CONNECT

  predicate IsTransferEncoding(l: Line) {
    LowerName(l.name) == "transfer-encoding"
  }

  function Trim(s: seq<Byte>): (r: seq<Byte>)
    ensures |r| <= |s|
    decreases |s|
  {
    if s == [] then []
    else if IsBlank(s[0]) then Trim(s[1..])
    else if IsBlank(s[|s| - 1]) then Trim(s[..|s| - 1])
    else s
  }

  /** The transfer codings of a header, in order: the items of its Transfer-Encoding lines that are not empty. */
  function Codings(lines: seq<Line>): seq<seq<Byte>> {
    if lines == [] then []
    else (if IsTransferEncoding(lines[0]) then Items(Split(lines[0].value)) else []) + Codings(lines[1..])
  }

  function Items(items: seq<seq<Byte>>): seq<seq<Byte>> {
    if items == [] then []
    else (if Trim(items[0]) == [] then [] else [LowerValue(Trim(items[0]))]) + Items(items[1..])
  }

  predicate HasCodings(lines: seq<Line>) {
    exists i :: 0 <= i < |lines| && IsTransferEncoding(lines[i])
  }

  predicate HasLength(lines: seq<Line>) {
    exists i :: 0 <= i < |lines| && IsLength(lines[i])
  }

  /** A Content-Length value: digits, apart from the blanks around it. */
  predicate IsDigits(v: seq<Byte>) {
    IsDecimal(Trim(v))
  }

  /** All Content-Length lines are well-formed and give this length. */
  predicate AllValid(lines: seq<Line>, n: nat) {
    forall i :: 0 <= i < |lines| && IsLength(lines[i]) ==>
      IsDigits(lines[i].value) && DecimalOf(Trim(lines[i].value)) == n
  }

  /** The length in the first Content-Length line, if it is well-formed. */
  function FirstLength(lines: seq<Line>): nat {
    if lines == [] then 0
    else if !IsLength(lines[0]) then FirstLength(lines[1..])
    else if IsDigits(lines[0].value) then DecimalOf(Trim(lines[0].value))
    else 0
  }

  /** Informational, 204 and 304 responses never have a body. */
  predicate NeverBody(code: nat) {
    100 <= code <= 199 || code == 204 || code == 304
  }

  /** What the standard says of a body: its framing, or that the message is broken. */
  datatype Verdict = Frame(framing: Framing) | Broken

  function RfcFraming(h: Head): Verdict
    requires ValidHead(h)
  {
    var codings, length := Codings(h.lines), FirstLength(h.lines);
    if NeverBody(DecimalOf(h.status.code)) then Frame(NoBody)
    else if HasCodings(h.lines) then
      Frame(if codings != [] && codings[|codings| - 1] == "chunked" then Chunks else UntilClose)
    else if !HasLength(h.lines) then Frame(UntilClose)
    else if AllValid(h.lines, length) then Frame(if length == 0 then NoBody else Sized(length))
    else Broken
  }

  // When the parser finds the same

  /** A line whose length the parser takes. */
  predicate GivesLength(l: Line) {
    IsLength(l) && l.value != []
  }

  predicate NoneGives(lines: seq<Line>) {
    forall i :: 0 <= i < |lines| ==> !GivesLength(lines[i])
  }

  /**
   * The headers that the parser reads as the standard does. Without a body by its code, nothing may be said of
   * one, except a length of zero. With a line for transfer codings, if chunked is the last coding a line must say
   * chunked and nothing else; if it is not, or there is no coding, no line may, and no length may be given.
   * Otherwise the Content-Length lines must be well-formed and agree; without any, the response must not upgrade.
   */
  ghost predicate ReadAsRfc(h: Head)
    requires ValidHead(h)
  {
    var codings := Codings(h.lines);
    if NeverBody(DecimalOf(h.status.code)) then
      !SaysChunked(h.lines) && (NoneGives(h.lines) || SaysLength(ULLONG_MAX, h.lines) == 0)
    else if HasCodings(h.lines) then
      if codings != [] && codings[|codings| - 1] == "chunked" then SaysChunked(h.lines)
      else !SaysChunked(h.lines) && NoneGives(h.lines) && !Upgrades(h)
    else if !HasLength(h.lines) then !Upgrades(h)
    else exists n :: AllValid(h.lines, n)
  }

  /** A character before the digits does not count, if it is a space. */
  lemma {:induction false} NumberAfterSpace(v: seq<Byte>)
    requires v != [] && v[0] == ' '
    ensures NumberOf(v) == NumberOf(v[1..])
    decreases |v|
  {
    var u := v[..|v| - 1];
    if u == [] {
      assert v[1..] == [] && NumberOf(u) == 0;
    } else {
      NumberAfterSpace(u);
      assert u[1..] == v[1..][..|v[1..]| - 1];
    }
  }

  lemma {:induction false} NumberOfDigits(v: seq<Byte>)
    requires forall i :: 0 <= i < |v| ==> IsNum(v[i])
    ensures NumberOf(v) == DecimalOf(v)
    decreases |v|
  {
    if v != [] { NumberOfDigits(v[..|v| - 1]); }
  }

  /** Of a well-formed length the parser takes the number. */
  lemma {:induction false} NumberTrimmed(v: seq<Byte>)
    requires IsDigits(v) && forall i :: 0 <= i < |v| ==> IsNum(v[i]) || v[i] == ' '
    ensures NumberOf(v) == DecimalOf(Trim(v))
    decreases |v|
  {
    if IsBlank(v[0]) {
      NumberAfterSpace(v);
      NumberTrimmed(v[1..]);
    } else if IsBlank(v[|v| - 1]) {
      NumberTrimmed(v[..|v| - 1]);
    } else {
      NumberOfDigits(v);
    }
  }

  lemma ValidGives(l: Line)
    requires ValidLine(l) && IsLength(l) && IsDigits(l.value)
    ensures GivesLength(l) && NumberOf(l.value) == DecimalOf(Trim(l.value))
  {
    NumberTrimmed(l.value);
  }

  /** The parser takes the last length that is given. */
  lemma {:induction false} LengthFrom(length: nat, lines: seq<Line>)
    requires ValidLines(lines)
    ensures NoneGives(lines) ==> SaysLength(length, lines) == length
    ensures !NoneGives(lines) ==> SaysLength(length, lines) < LENGTH_LIMIT
    decreases |lines|
  {
    if lines != [] {
      var l, rest := lines[0], lines[1..];
      LengthFrom(if GivesLength(l) then NumberOf(l.value) else length, rest);
      assert forall i :: 0 <= i < |rest| ==> rest[i] == lines[i + 1];
      assert NoneGives(lines) <==> !GivesLength(l) && NoneGives(rest);
    }
  }

  /** If all are well-formed and agree, that is the length they give. */
  lemma {:induction false} ValidLength(length: nat, lines: seq<Line>, n: nat)
    requires ValidLines(lines) && AllValid(lines, n)
    ensures HasLength(lines) ==> SaysLength(length, lines) == FirstLength(lines) == n && !NoneGives(lines)
    ensures !HasLength(lines) ==> SaysLength(length, lines) == length
    decreases |lines|
  {
    if lines != [] {
      var l, rest := lines[0], lines[1..];
      if IsLength(l) { ValidGives(l); }
      assert forall i :: 0 <= i < |rest| ==> rest[i] == lines[i + 1];
      ValidLength(if GivesLength(l) then NumberOf(l.value) else length, rest, n);
      assert HasLength(lines) <==> IsLength(l) || HasLength(rest);
    }
  }

  /** A line that says chunked is a line of codings, of which chunked is the last. */
  lemma {:induction false} ChunkedIsCoding(lines: seq<Line>)
    requires SaysChunked(lines)
    ensures HasCodings(lines) && Codings(lines) != []
    decreases |lines|
  {
    var k :| 0 <= k < |lines| && IsChunkedLine(lines[k]);
    assert IsTransferEncoding(lines[k]);
    if IsChunkedLine(lines[0]) {
      ChunkedItem(lines[0].value);
    } else {
      var i :| 0 <= i < |lines| && IsChunkedLine(lines[i]);
      assert lines[1..][i - 1] == lines[i];
      ChunkedIsCoding(lines[1..]);
    }
  }

  lemma {:induction false} NoCommas(v: seq<Byte>)
    requires ',' !in v
    ensures Split(v) == [v]
    decreases |v|
  {
    if v != [] {
      NoCommas(v[..|v| - 1]);
      assert v[..|v| - 1] + [v[|v| - 1]] == v;
    }
  }

  lemma {:induction false} TrimKeeps(s: seq<Byte>, i: nat)
    requires i < |s| && !IsBlank(s[i])
    ensures Trim(s) != []
    decreases |s|
  {
    if IsBlank(s[0]) {
      TrimKeeps(s[1..], i - 1);
    } else if IsBlank(s[|s| - 1]) {
      TrimKeeps(s[..|s| - 1], i);
    }
  }

  lemma ChunkedItem(v: seq<Byte>)
    requires IsChunked(v)
    ensures Items(Split(v)) != []
  {
    var low := LowerValue(v[..7]);
    assert forall i :: 0 <= i < 7 ==> Lower(v[i]) == low[i] == Chunked.Text()[i];
    CommaDiffers(Chunked, 0);
    assert ',' !in v;
    NoCommas(v);
    TrimKeeps(v, 0);
    assert Items([v]) != [];
  }

  lemma LengthOrNone(lines: seq<Line>)
    ensures !HasLength(lines) ==> NoneGives(lines)
  {}

  /** The parser frames a response as the standard does if and only if its header is one of these. */
  lemma FramedAsRfc(h: Head)
    requires ValidHead(h)
    ensures RfcFraming(h) == Frame(FramingOf(h, false)) <==> ReadAsRfc(h)
  {
    hide Codings, NoneGives, AllValid, SaysLength, FirstLength, DecimalOf, SaysChunked, Upgrades;
    hide HasCodings, HasLength;
    LengthFrom(ULLONG_MAX, h.lines);
    LengthOrNone(h.lines);
    if n: nat :| AllValid(h.lines, n) {
      ValidLength(ULLONG_MAX, h.lines, n);
    }
    if SaysChunked(h.lines) { ChunkedIsCoding(h.lines); }
  }

  // Headers that are read otherwise

  function Response(code: seq<Byte>, lines: seq<Line>): Head {
    Head(StatusLine("1", "1", code, []), lines)
  }

  lemma Names()
    ensures LowerName("Content-Length") == NContentLength.Text()
    ensures LowerName("Transfer-Encoding") == NTransferEncoding.Text()
    ensures LowerName("Connection") == NConnection.Text()
    ensures LowerName("Upgrade") == NUpgrade.Text()
  {}

  lemma Numbers()
    ensures ValidNumber("1") && DecimalOf("1") == 1
    ensures ValidNumber("200") && DecimalOf("200") == 200
    ensures ValidNumber("204") && DecimalOf("204") == 204
    ensures ValidNumber("304") && DecimalOf("304") == 304
  {
    Decimal3("200");
    Decimal3("204");
    Decimal3("304");
    assert "1"[..0] == [] && DecimalOf([]) == 0;
  }

  lemma Decimal3(s: seq<Byte>)
    requires |s| == 3 && IsDecimal(s)
    ensures DecimalOf(s) == Digit(s[0]) * 100 + Digit(s[1]) * 10 + Digit(s[2])
  {
    assert s[..2][..1] == s[..1] && s[..1][..0] == [];
    assert DecimalOf(s[..1]) == Digit(s[0]);
    assert DecimalOf(s[..2]) == Digit(s[0]) * 10 + Digit(s[1]);
  }

  function LengthLine(v: seq<Byte>): Line {
    Line("Content-Length", " ", v)
  }

  lemma DigitLine(v: seq<Byte>)
    requires |v| == 1 && IsNum(v[0])
    ensures ValidLine(LengthLine(v)) && GivesLength(LengthLine(v)) && NumberOf(v) == Digit(v[0])
    ensures !IsTransferEncoding(LengthLine(v)) && !IsChunkedLine(LengthLine(v))
    ensures Trim(v) == v
  {
    Names();
    assert v[..0] == [] && NumberOf(v[..0]) == 0;
  }

  /** A 304 with a length, as the answer to a conditional request may have it: the parser waits for a body. */
  lemma NotModified()
    ensures var h := Response("304", [LengthLine("5")]);
            ValidHead(h) && FramingOf(h, false) == Sized(5) && RfcFraming(h) == Frame(NoBody)
  {
    var h := Response("304", [LengthLine("5")]);
    Numbers();
    DigitLine("5");
    assert h.lines[0] == LengthLine("5") && h.lines[1..] == [];
    assert SaysLength(ULLONG_MAX, h.lines) == SaysLength(5, []) == 5;
  }

  /** Two lengths that differ: the parser takes the last. */
  lemma TwoLengths()
    ensures var h := Response("200", [LengthLine("1"), LengthLine("2")]);
            ValidHead(h) && FramingOf(h, false) == Sized(2) && RfcFraming(h) == Broken
  {
    var h := Response("200", [LengthLine("1"), LengthLine("2")]);
    Numbers();
    DigitLine("1");
    DigitLine("2");
    var last := h.lines[1..];
    assert last == [LengthLine("2")] && last[1..] == [];
    assert SaysLength(ULLONG_MAX, h.lines) == SaysLength(1, last) == SaysLength(2, []) == 2;
    assert Codings(h.lines) == [] + Codings(last) && Codings(last) == [] + Codings([]);
    assert GivesLength(h.lines[0]) && NumberOf(h.lines[0].value) == 1;
  }

  lemma EmptyLine(l: Line)
    requires l == Line("Content-Length", "", []) || l == Line("Transfer-Encoding", "", [])
    ensures ValidLine(l) && !GivesLength(l) && !IsChunkedLine(l) && !IsUpgradeLine(l)
    ensures if l.name == "Content-Length" then IsLength(l) && !IsTransferEncoding(l) && !IsDigits(l.value)
            else !IsLength(l) && IsTransferEncoding(l) && Items(Split(l.value)) == []
  {
    hide Items, Split, Trim, LowerName;
    Names();
    NoItems();
  }

  lemma NoItems()
    ensures Items(Split([])) == [] && Trim([]) == []
  {
    var none: seq<seq<Byte>> := [[]];
    assert Split([]) == none && none[1..] == [];
  }

  /** An empty Content-Length line is not well-formed: the parser does not see it. */
  lemma EmptyLength()
    ensures var h := Response("200", [Line("Content-Length", "", [])]);
            ValidHead(h) && FramingOf(h, false) == UntilClose && RfcFraming(h) == Broken
  {
    var l := Line("Content-Length", "", []);
    Numbers();
    EmptyLine(l);
    OneLine(l);
    hide IsLength, IsTransferEncoding, IsChunkedLine, IsUpgradeLine, DecimalOf, SaysLength, Codings, Trim, ValidLine;
    var h := Response("200", [l]);
    assert IsLength(h.lines[0]) && !IsDigits(h.lines[0].value);
  }

  /** Nor does it with another one that is. */
  lemma EmptyLengthToo()
    ensures var h := Response("200", [Line("Content-Length", "", []), LengthLine("5")]);
            ValidHead(h) && FramingOf(h, false) == Sized(5) && RfcFraming(h) == Broken
  {
    var l := Line("Content-Length", "", []);
    Numbers();
    EmptyLine(l);
    EmptyBefore(l);
    hide IsLength, IsTransferEncoding, IsChunkedLine, IsUpgradeLine, DecimalOf, SaysLength, Codings, Trim, ValidLine;
    var h := Response("200", [l, LengthLine("5")]);
    assert IsLength(h.lines[0]) && !IsDigits(h.lines[0].value);
  }

  /** An empty Transfer-Encoding line leaves the end of the body to the connection: the parser takes the length. */
  lemma EmptyCoding()
    ensures var h := Response("200", [Line("Transfer-Encoding", "", []), LengthLine("5")]);
            ValidHead(h) && FramingOf(h, false) == Sized(5) && RfcFraming(h) == Frame(UntilClose)
  {
    var l := Line("Transfer-Encoding", "", []);
    Numbers();
    EmptyLine(l);
    EmptyBefore(l);
    hide IsLength, IsTransferEncoding, IsChunkedLine, IsUpgradeLine, DecimalOf, SaysLength, Codings, Trim, ValidLine;
    var h := Response("200", [l, LengthLine("5")]);
    assert IsTransferEncoding(h.lines[0]);
  }

  /** A line that the parser does not see, before a length. */
  lemma EmptyBefore(l: Line)
    requires ValidLine(l) && !GivesLength(l) && !IsChunkedLine(l)
    requires !IsTransferEncoding(l) || Items(Split(l.value)) == []
    ensures var lines := [l, LengthLine("5")];
            && ValidLines(lines) && SaysLength(ULLONG_MAX, lines) == 5 && !SaysChunked(lines) && Codings(lines) == []
            && (HasCodings(lines) <==> IsTransferEncoding(l))
  {
    DigitLine("5");
    var lines, last := [l, LengthLine("5")], [LengthLine("5")];
    assert lines[1..] == last && last[1..] == [];
    hide IsTransferEncoding, IsChunkedLine, Items, Split, ValidLine, NumberOf;
    assert SaysLength(ULLONG_MAX, lines) == SaysLength(ULLONG_MAX, last) == SaysLength(5, []);
    assert Codings(last) == [] + Codings([]) && Codings(lines) == [] + Codings(last);
    assert lines[0] == l && lines[1] == LengthLine("5");
  }

  function CodingLine(v: seq<Byte>): Line {
    Line("Transfer-Encoding", " ", v)
  }

  lemma PlainLine(l: Line)
    requires l.name == "Transfer-Encoding" || l.name == "Upgrade" || l.name == "Connection"
    requires l.pad == " " && l.value != []
    requires forall i :: 0 <= i < |l.value| ==> l.value[i] == ' ' || l.value[i] == ',' || 'a' <= l.value[i] <= 'z'
    requires !IsBlank(l.value[0])
    ensures ValidLine(l) && !GivesLength(l)
  {
    Names();
  }

  /** A 204 with Transfer-Encoding: chunked: the parser waits for chunks. */
  lemma NoContentChunked()
    ensures var h := Response("204", [CodingLine("chunked")]);
            ValidHead(h) && FramingOf(h, false) == Chunks && RfcFraming(h) == Frame(NoBody)
  {
    Numbers();
    Names();
    PlainLine(CodingLine("chunked"));
    ChunkedText();
    assert IsChunkedLine(Response("204", [CodingLine("chunked")]).lines[0]);
  }

  lemma ChunkedText()
    ensures IsChunked("chunked") && LowerValue("chunked") == Chunked.Text()
  {
    assert "chunked"[..7] == "chunked";
  }

  lemma {:induction false} SplitPlain(a: seq<Byte>, b: seq<Byte>)
    requires ',' !in b
    ensures Split(a + [','] + b) == Split(a) + [b]
    decreases |b|
  {
    if b == [] {
      assert a + [','] + b == a + [','];
      SplitSnoc(a, ',');
    } else {
      var c := b[..|b| - 1];
      SplitPlain(a, c);
      assert a + [','] + b == (a + [','] + c) + [b[|b| - 1]] && c + [b[|b| - 1]] == b;
      SplitSnoc(a + [','] + c, b[|b| - 1]);
    }
  }

  lemma OneLine(l: Line)
    ensures Codings([l]) == if IsTransferEncoding(l) then Items(Split(l.value)) else []
    ensures SaysLength(ULLONG_MAX, [l]) == if GivesLength(l) then NumberOf(l.value) else ULLONG_MAX
    ensures SaysChunked([l]) <==> IsChunkedLine(l)
    ensures OffersUpgrade([l]) <==> IsUpgradeLine(l)
  {
    hide Items, Split, IsTransferEncoding, NumberOf, IsUpgradeLine, IsChunkedLine;
    assert [l][1..] == [];
    assert Codings([l]) == (if IsTransferEncoding(l) then Items(Split(l.value)) else []) + Codings([]);
    assert SaysLength(ULLONG_MAX, [l]) == SaysLength(if GivesLength(l) then NumberOf(l.value) else ULLONG_MAX, []);
  }

  /** Transfer-Encoding: gzip, chunked is not recognised: the parser reads until the connection ends. */
  lemma GzipChunked()
    ensures var h := Response("200", [CodingLine("gzip, chunked")]);
            ValidHead(h) && FramingOf(h, false) == UntilClose && RfcFraming(h) == Frame(Chunks)
  {
    GzipLine(CodingLine("gzip, chunked"));
    Numbers();
    CodingsOnly("200", CodingLine("gzip, chunked"));
  }

  /** A header with a line of codings that the parser does not recognise. */
  lemma CodingsOnly(code: seq<Byte>, l: Line)
    requires ValidNumber("1") && ValidNumber(code) && DecimalOf(code) == 200 && ValidLine(l)
    requires IsTransferEncoding(l) && !GivesLength(l) && !IsUpgradeLine(l) && !IsChunkedLine(l)
             && Items(Split(l.value)) != []
    ensures var h, codings := Response(code, [l]), Items(Split(l.value));
            && ValidHead(h) && FramingOf(h, false) == UntilClose
            && RfcFraming(h) == Frame(if codings[|codings| - 1] == Chunked.Text() then Chunks else UntilClose)
  {
    hide Codings, SaysLength, SaysChunked, OffersUpgrade, DecimalOf, ValidNumber, ValidLine, IsDecimal;
    hide IsChunkedLine, IsUpgradeLine, IsTransferEncoding, GivesLength, Items, Split, ListsWord;
    OneLine(l);
  }

  lemma GzipLine(l: Line)
    requires l == CodingLine("gzip, chunked")
    ensures ValidLine(l) && IsTransferEncoding(l) && !GivesLength(l) && !IsUpgradeLine(l) && !IsChunkedLine(l)
    ensures Items(Split(l.value)) == ["gzip", Chunked.Text()]
  {
    hide IsWord;
    Names();
    PlainLine(l);
    hide ValidLine;
    GzipItems();
    NotChunked();
    hide Split, Items, LowerName, IsWord;
    assert "gzip" + [','] + " chunked" == "gzip, chunked";
    SplitTwo("gzip", " chunked");
  }

  lemma NotChunked()
    ensures !IsChunked("gzip, chunked")
  {
    assert LowerValue("gzip, chunked"[..7])[0] == 'g';
  }

  lemma GzipItems()
    ensures Items(["gzip", " chunked"]) == ["gzip", Chunked.Text()]
  {
    ChunkedText();
    var items: seq<seq<Byte>> := ["gzip", " chunked"];
    assert items[1..] == [" chunked"] && items[1..][1..] == [];
    assert Trim("gzip") == "gzip";
    assert " chunked"[1..] == "chunked" && Trim("chunked") == "chunked" && Trim(" chunked") == Trim("chunked");
    assert LowerValue("gzip") == "gzip";
    assert Items(items[1..]) == [Chunked.Text()] + Items([]);
  }

  /** Upgrade: x and Connection: upgrade without a length: the parser leaves the response with its header. */
  lemma UpgradeLeaves()
    ensures var h := Response("200", [Line("Upgrade", " ", "x"), Line("Connection", " ", "upgrade")]);
            ValidHead(h) && FramingOf(h, false) == Upgraded && RfcFraming(h) == Frame(UntilClose)
  {
    var a, b := Line("Upgrade", " ", "x"), Line("Connection", " ", "upgrade");
    UpgradeLines(a, b);
    Numbers();
    hide IsUpgradeLine, Lists, Codings, SaysLength, SaysChunked, DecimalOf, ValidNumber, ValidLine, IsDecimal;
    hide HasCodings, HasLength, IsLength, IsTransferEncoding, LowerName;
    var h := Response("200", [a, b]);
    assert IsUpgradeLine(h.lines[0]) && Lists(h.lines[1], ConnectionUpgrade);
    NoLengthOrCoding(a, b);
  }

  lemma UpgradeLines(a: Line, b: Line)
    requires a == Line("Upgrade", " ", "x") && b == Line("Connection", " ", "upgrade")
    ensures ValidLine(a) && ValidLine(b) && IsUpgradeLine(a) && Lists(b, ConnectionUpgrade)
    ensures !IsLength(a) && !IsLength(b) && !IsTransferEncoding(a) && !IsTransferEncoding(b)
  {
    Names();
    PlainLine(a);
    PlainLine(b);
    assert "upgrade"[..7] == "upgrade";
    hide LowerName, ValidLine, Takes;
    OneWordList(ConnectionUpgrade, "upgrade");
  }

  lemma NoLengthOrCoding(a: Line, b: Line)
    requires !IsLength(a) && !IsLength(b) && !IsTransferEncoding(a) && !IsTransferEncoding(b)
    ensures SaysLength(ULLONG_MAX, [a, b]) == ULLONG_MAX && Codings([a, b]) == [] && !HasCodings([a, b])
            && !HasLength([a, b]) && !SaysChunked([a, b])
  {
    var lines, last := [a, b], [b];
    assert lines[1..] == last && last[1..] == [];
    assert SaysLength(ULLONG_MAX, last) == SaysLength(ULLONG_MAX, []);
    assert Codings(last) == [] + Codings([]) && Codings(lines) == [] + Codings(last);
  }

  /** A list of one word. */
  lemma OneWordList(t: Token, v: seq<Byte>)
    requires Wanted(t) && IsWord(t, v) && ',' !in v && v != []
    ensures Takes(Split(v), t)
  {
    NoCommas(v);
    ListedIsTaken([v], 0, t);
    assert TakenAt([v], 0, t);
  }

  // Connection lists that are not read as lists

  lemma ModeNext(items: seq<seq<Byte>>, i: nat)
    requires i < |items|
    ensures items[..i + 1][..i] == items[..i] && items[..i + 1][i] == items[i]
  {}

  /** An item that breaks off inside one of the words swallows the comma and the item after it. */
  lemma SwallowedItem(items: seq<seq<Byte>>, i: nat, t: Token)
    requires i + 1 < |items| && ListState(ModeAfter(items[..i]), items[i]).MatchingToken?
    ensures !TakenAt(items, i + 1, t)
  {
    hide InItem;
    ModeNext(items, i);
    if items[i] != [] { ItemInList(items[i]); }
    assert ModeAfter(items[..i + 1]) == Swallowed;
  }

  /** Behind an item that is empty, or does not begin with a token character, nothing is taken. */
  lemma {:induction false} NothingBehind(items: seq<seq<Byte>>, i: nat, j: nat, t: Token)
    requires 0 < i < j < |items| && ModeAfter(items[..i]) == Next
    requires InNextItem(items[i]).TokenStart? || InNextItem(items[i]).General?
    ensures ModeAfter(items[..j]) == Refused && !TakenAt(items, j, t)
    decreases j
  {
    hide InItem, InNextItem;
    ModeNext(items, j - 1);
    if j > i + 1 {
      NothingBehind(items, i, j - 1, t);
    }
  }

  /** Of k,close the word close is not taken. */
  lemma MissedAfterPart()
    ensures Split("k,close") == ["k", "close"] && IsWord(Close, "close") && !Takes(Split("k,close"), Close)
  {
    assert "close"[..5] == "close";
    hide Split, InItem, IsWord, SkipSpaces;
    var two: seq<seq<Byte>> := ["k", "close"];
    assert "k" + [','] + "close" == "k,close";
    SplitTwo("k", "close");
    ItemBegins('k');
    assert two[..0] == [];
    SwallowedItem(two, 0, Close);
    assert !TakenAt(two, 0, Close);
  }

  /** Nor of a,,close. */
  lemma MissedAfterEmpty()
    ensures Split("a,,close") == ["a", [], "close"] && !Takes(Split("a,,close"), Close)
  {
    hide Split, InItem, IsWord, SkipSpaces;
    var three: seq<seq<Byte>> := ["a", [], "close"];
    assert "a" + [','] + [] == "a," && "a," + [','] + "close" == "a,,close";
    SplitTwo("a", []);
    SplitPlain("a,", "close");
    PlainFirst(three);
    assert !TakenAt(three, 0, Close) && !TakenAt(three, 1, Close);
    NothingBehind(three, 1, 2, Close);
  }

  lemma SplitTwo(a: seq<Byte>, b: seq<Byte>)
    requires ',' !in a && ',' !in b
    ensures Split(a + [','] + b) == [a, b]
  {
    NoCommas(a);
    SplitPlain(a, b);
  }

  lemma PlainFirst(items: seq<seq<Byte>>)
    requires |items| == 3 && items[0] == "a" && items[1] == []
    ensures ModeAfter(items[..0]) == First && ModeAfter(items[..1]) == Next
    ensures InItem(items[0]) == InToken && InNextItem(items[1]) == TokenStart
  {
    ItemBegins('a');
    SkipNone();
    assert items[..1][..0] == [] && items[..1][0] == items[0];
  }

  /** Section 6.3: HTTP/1.1 keeps the connection unless a line lists close, HTTP/1.0 only if one lists keep-alive. */
  lemma KeptByVersion(h: Head, trailer: seq<Line>)
    requires ValidHead(h) && DecimalOf(h.status.major) == 1
    ensures DecimalOf(h.status.minor) == 1 ==>
              (Kept(h, trailer) <==> !ListsWord(h.lines, Close) && !ListsWord(trailer, Close))
    ensures DecimalOf(h.status.minor) == 0 ==>
              (Kept(h, trailer) <==> ListsWord(h.lines, KeepAlive) || ListsWord(trailer, KeepAlive))
  {
    hide ListsWord, ValidHead, DecimalOf;
  }
}
