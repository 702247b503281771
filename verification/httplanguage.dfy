/** Which bytes the parser takes up to the end of a header, and what it refuses: the language of response headers. */
module HttpLanguage {
  import opened Alphabets
  import opened Bytes
  import opened HttpChars
  import opened HttpParser
  import opened HttpRuns
  import opened HttpLists
  import opened HttpNames
  import opened HttpMessages
  import opened HttpResponses

  // The status line

  /**
   * A status line as far as it has been read: line ends before it, how much of HTTP/ there is, the major number, the
   * dot, the minor number, how many spaces follow, the code, a space, the reason, and the line end, of which the
   * carriage return may be missing.
   */
  datatype Opening = Opening(blanks: seq<Byte>, word: nat, major: seq<Byte>, dot: bool, minor: seq<Byte>, gaps: nat,
                             code: seq<Byte>, gap: bool, reason: seq<Byte>, cr: bool, lf: bool)

  const WORD: seq<Byte> := "HTTP/"

  /** Digits of a number of at most 999, if any */
  predicate IsNumeral(s: seq<Byte>) {
    (forall i :: 0 <= i < |s| ==> IsNum(s[i])) && DecimalOf(s) <= 999
  }

  predicate NoLineEnd(s: seq<Byte>) {
    forall i :: 0 <= i < |s| ==> s[i] != '\r' && s[i] != '\n'
  }

  predicate LineEnds(s: seq<Byte>) {
    forall i :: 0 <= i < |s| ==> s[i] == '\r' || s[i] == '\n'
  }

  predicate ValidOpening(r: Opening) {
    && LineEnds(r.blanks) && r.word <= 5
    && IsNumeral(r.major) && IsNumeral(r.minor) && IsNumeral(r.code) && NoLineEnd(r.reason)
    && (r.major != [] ==> r.word == 5)
    && (r.dot ==> r.major != [])
    && (r.minor != [] ==> r.dot)
    && (r.gaps > 0 ==> r.minor != [])
    && (r.code != [] ==> r.gaps > 0)
    && (r.gap ==> r.code != [])
    && (r.reason != [] ==> r.gap)
    && (r.cr || r.lf ==> r.code != [])
  }

  function Sign(there: bool, c: Byte): seq<Byte> {
    if there then [c] else []
  }

  function Spaces(n: nat): seq<Byte> {
    seq(n, _ => ' ')
  }

  function VersionText(r: Opening): seq<Byte>
    requires r.word <= 5
  {
    r.blanks + WORD[..r.word] + r.major + Sign(r.dot, '.') + r.minor
  }

  function OpeningText(r: Opening): seq<Byte>
    requires r.word <= 5
  {
    VersionText(r) + Spaces(r.gaps) + r.code + Sign(r.gap, ' ') + r.reason + Sign(r.cr, '\r') + Sign(r.lf, '\n')
  }

  function OpeningState(r: Opening): State {
    if r.lf then HeaderFieldStart
    else if r.cr then LineAlmostDone
    else if r.reason != [] then State.Status
    else if r.gap then StatusStart
    else if r.code != [] then StatusCode
    else if r.gaps > 0 then FirstStatusCode
    else if r.minor != [] then HttpMinor
    else if r.dot then FirstHttpMinor
    else if r.major != [] then HttpMajor
    else if r.word >= 5 then FirstHttpMajor
    else if r.word == 4 then ResHTTP
    else if r.word == 3 then ResHTT
    else if r.word == 2 then ResHT
    else if r.word == 1 then ResH
    else StartRes
  }

  /** Where the parser is in a status line: its state, and the number it is reading. */
  predicate InOpening(k: Core, r: Opening) {
    && k.errno == OK && k.state == OpeningState(r)
    && (k.state.HttpMajor? && IsNumeral(r.major) ==> k.major == DecimalOf(r.major))
    && (k.state.HttpMinor? && IsNumeral(r.minor) ==> k.minor == DecimalOf(r.minor))
    && (k.state.StatusCode? && IsNumeral(r.code) ==> k.status == DecimalOf(r.code))
    && (!k.state.StartRes? ==> !k.flags.trailing)
  }

  const NOTHING := Opening([], 0, [], false, [], 0, [], false, [], false, false)

  /** Without its last byte */
  function Shorter(r: Opening): Opening {
    if r.lf then r.(lf := false)
    else if r.cr then r.(cr := false)
    else if r.reason != [] then r.(reason := r.reason[..|r.reason| - 1])
    else if r.gap then r.(gap := false)
    else if r.code != [] then r.(code := r.code[..|r.code| - 1])
    else if r.gaps > 0 then r.(gaps := r.gaps - 1)
    else if r.minor != [] then r.(minor := r.minor[..|r.minor| - 1])
    else if r.dot then r.(dot := false)
    else if r.major != [] then r.(major := r.major[..|r.major| - 1])
    else if r.word > 0 then r.(word := r.word - 1)
    else if r.blanks != [] then r.(blanks := r.blanks[..|r.blanks| - 1])
    else r
  }

  function Last(r: Opening): Byte
    requires r.word <= 5
  {
    if r.lf then '\n'
    else if r.cr then '\r'
    else if r.reason != [] then r.reason[|r.reason| - 1]
    else if r.gap then ' '
    else if r.code != [] then r.code[|r.code| - 1]
    else if r.gaps > 0 then ' '
    else if r.minor != [] then r.minor[|r.minor| - 1]
    else if r.dot then '.'
    else if r.major != [] then r.major[|r.major| - 1]
    else if r.word > 0 then WORD[r.word - 1]
    else if r.blanks != [] then r.blanks[|r.blanks| - 1]
    else ' '
  }

  lemma NumeralFront(s: seq<Byte>)
    requires IsNumeral(s) && s != []
    ensures IsNumeral(s[..|s| - 1]) && IsNum(s[|s| - 1])
    ensures DecimalOf(s) == DecimalOf(s[..|s| - 1]) * 10 + Digit(s[|s| - 1])
  {}

  lemma ShorterValid(r: Opening)
    requires ValidOpening(r) && r != NOTHING
    ensures ValidOpening(Shorter(r))
  {
    if r.major != [] { NumeralFront(r.major); }
    if r.minor != [] { NumeralFront(r.minor); }
    if r.code != [] { NumeralFront(r.code); }
    hide IsNumeral;
  }

  lemma EndsWith(a: seq<Byte>, b: seq<Byte>)
    requires b != []
    ensures a + b == a + b[..|b| - 1] + [b[|b| - 1]]
  {}

  lemma NoMore(a: seq<Byte>)
    ensures a + [] == a
  {}

  lemma Signs()
    ensures forall c: Byte :: Sign(false, c) == [] && Sign(true, c) == [c]
    ensures Spaces(0) == []
  {}

  lemma ShorterText(r: Opening)
    requires ValidOpening(r) && r != NOTHING
    ensures Shorter(r).word <= 5 && OpeningText(r) == OpeningText(Shorter(r)) + [Last(r)]
  {
    hide Sign, Spaces, VersionText, LineEnds, NoLineEnd, IsNumeral;
    Signs();
    var r' := Shorter(r);
    if r.lf || r.cr || r.reason != [] || r.gap { SameVersion(r, r'); }
    var code := VersionText(r) + Spaces(r.gaps) + r.code;
    var code' := VersionText(r') + Spaces(r'.gaps) + r'.code;
    NoMore(code + Sign(r.gap, ' ') + r.reason + Sign(r.cr, '\r'));
    NoMore(code' + Sign(r'.gap, ' ') + r'.reason + Sign(r'.cr, '\r'));
    if !r.lf {
      NoMore(code + Sign(r.gap, ' ') + r.reason);
      NoMore(code' + Sign(r'.gap, ' ') + r'.reason);
      if r.cr {
      } else if r.reason != [] {
        EndsWith(code + Sign(r.gap, ' '), r.reason);
      } else {
        NoMore(code + Sign(r.gap, ' '));
        NoMore(code' + Sign(r'.gap, ' '));
        NoMore(code);
        NoMore(code');
        if !r.gap {
          FrontShorter(r);
        }
      }
    }
  }

  lemma SameVersion(r: Opening, r': Opening)
    requires r.word <= 5 && r'.word == r.word && r'.blanks == r.blanks && r'.major == r.major && r'.dot == r.dot
             && r'.minor == r.minor
    ensures VersionText(r') == VersionText(r)
  {}

  lemma FrontShorter(r: Opening)
    requires ValidOpening(r) && r != NOTHING && !r.lf && !r.cr && r.reason == [] && !r.gap
    ensures Shorter(r).word <= 5
    ensures VersionText(r) + Spaces(r.gaps) + r.code
            == VersionText(Shorter(r)) + Spaces(Shorter(r).gaps) + Shorter(r).code + [Last(r)]
  {
    hide Sign, LineEnds, NoLineEnd, IsNumeral;
    Signs();
    var r', front := Shorter(r), VersionText(r);
    if r.code != [] {
      EndsWith(front + Spaces(r.gaps), r.code);
    } else {
      NoMore(front + Spaces(r.gaps));
      NoMore(VersionText(r') + Spaces(r'.gaps));
      if r.gaps > 0 {
        assert Spaces(r.gaps) == Spaces(r'.gaps) + [' '];
        assert front + Spaces(r.gaps) == front + Spaces(r'.gaps) + [' '];
      } else {
        NoMore(front);
        NoMore(VersionText(r'));
        hide Spaces;
        VersionShorter(r);
      }
    }
  }

  lemma VersionShorter(r: Opening)
    requires ValidOpening(r) && r != NOTHING
    requires !r.lf && !r.cr && r.reason == [] && !r.gap && r.code == [] && r.gaps == 0
    ensures Shorter(r).word <= 5 && VersionText(r) == VersionText(Shorter(r)) + [Last(r)]
  {
    hide Sign, LineEnds, NoLineEnd, IsNumeral;
    Signs();
    var r' := Shorter(r);
    var major, major' := r.blanks + WORD[..r.word] + r.major, r'.blanks + WORD[..r'.word] + r'.major;
    if r.minor != [] {
      EndsWith(major + Sign(r.dot, '.'), r.minor);
    } else {
      NoMore(major + Sign(r.dot, '.'));
      NoMore(major' + Sign(r'.dot, '.'));
      NoMore(major);
      NoMore(major');
      if !r.dot {
        if r.major != [] {
          EndsWith(r.blanks + WORD[..r.word], r.major);
        } else {
          NoMore(r.blanks + WORD[..r.word]);
          NoMore(r'.blanks + WORD[..r'.word]);
          if r.word > 0 {
            assert WORD[..r.word] == WORD[..r'.word] + [WORD[r'.word]];
            assert r.blanks + WORD[..r.word] == r.blanks + WORD[..r'.word] + [WORD[r'.word]];
          } else {
            NoMore(r.blanks);
            NoMore(r'.blanks);
            EndsWith([], r.blanks);
          }
        }
      }
    }
  }

  /** The kind of data that the last byte is. */
  function OpeningKind(r: Opening): Option<Kind> {
    if !r.lf && !r.cr && r.reason != [] then Some(StatusText) else None
  }

  /** No header is complete yet. */
  predicate HeadOpen(notes: seq<Note>) {
    forall i :: 0 <= i < |notes| ==> !notes[i].HeadersComplete?
  }

  /** A byte of a status line is taken. */
  lemma OpeningForward(noBody: Core -> bool, k: Core, r: Opening)
    requires ValidOpening(r) && r != NOTHING && InOpening(k, Shorter(r))
    ensures var o := Step(noBody, k, Last(r));
            InOpening(o.core, r) && !o.exit && o.kind == OpeningKind(r) && HeadOpen(o.notes)
  {
    IsStatusLine(noBody, k, Last(r), Shorter(r));
    hide Step, StepStatus, StepStatusLine;
    if r.code != [] {
      CodeForward(k, r);
    } else if r.major != [] {
      VersionForward(k, r);
    } else {
      WordForward(k, r);
    }
  }

  lemma IsStatusLine(noBody: Core -> bool, k: Core, ch: Byte, r: Opening)
    requires InOpening(k, r) && !r.lf
    ensures Step(noBody, k, ch) == StepStatusLine(k, ch)
    ensures r.code != [] || r.gaps > 0 ==> StepStatusLine(k, ch) == StepStatus(k, ch)
  {
    hide StepHeaderFieldStart, StepHeaderField, StepHeaderEnds, StepHeaderValue, StepChunkSize, StepStatus, DecimalOf;
    hide StepHeadersAlmostDone, StepHeadersDone, StepBody, IsNumeral, Digit;
  }

  lemma WordForward(k: Core, r: Opening)
    requires ValidOpening(r) && r != NOTHING && InOpening(k, Shorter(r)) && r.major == []
    ensures var o := StepStatusLine(k, Last(r));
            InOpening(o.core, r) && !o.exit && o.kind == None && HeadOpen(o.notes)
  {
    hide StepHeaderFieldStart, StepHeaderField, StepHeaderEnds, StepHeaderValue, StepChunkSize, DecimalOf, StepStatus;
    hide StepHeadersAlmostDone, StepHeadersDone, StepBody, IsNumeral, NoLineEnd, IsNum, Digit;
  }

  lemma DecimalNone()
    ensures DecimalOf([]) == 0 && IsNumeral([])
  {}

  lemma VersionForward(k: Core, r: Opening)
    requires ValidOpening(r) && InOpening(k, Shorter(r)) && r.major != [] && r.code == []
    ensures var o := StepStatusLine(k, Last(r));
            InOpening(o.core, r) && !o.exit && o.kind == None && HeadOpen(o.notes)
  {
    if r.dot {
      MinorForward(k, r);
    } else {
      MajorForward(k, r);
    }
  }

  lemma MajorForward(k: Core, r: Opening)
    requires ValidOpening(r) && InOpening(k, Shorter(r)) && r.major != [] && !r.dot
    ensures var o := StepStatusLine(k, Last(r));
            InOpening(o.core, r) && !o.exit && o.kind == None && HeadOpen(o.notes)
  {
    DecimalNone();
    NumeralFront(r.major);
    hide DecimalOf, IsNumeral, NoLineEnd, LineEnds, Digit, StepStatus;
  }

  lemma MinorForward(k: Core, r: Opening)
    requires ValidOpening(r) && InOpening(k, Shorter(r)) && r.dot && r.code == []
    ensures var o := StepStatusLine(k, Last(r));
            InOpening(o.core, r) && !o.exit && o.kind == None && HeadOpen(o.notes)
  {
    DecimalNone();
    if r.minor != [] { NumeralFront(r.minor); }
    hide DecimalOf, IsNumeral, NoLineEnd, LineEnds, Digit;
  }

  lemma CodeForward(k: Core, r: Opening)
    requires ValidOpening(r) && InOpening(k, Shorter(r)) && r.code != []
    ensures var o := StepStatus(k, Last(r));
            InOpening(o.core, r) && !o.exit && o.kind == OpeningKind(r) && HeadOpen(o.notes)
  {
    if r.gap || r.cr || r.lf {
      ReasonForward(k, r);
    } else {
      NumberForward(k, r);
    }
  }

  lemma ReasonForward(k: Core, r: Opening)
    requires ValidOpening(r) && InOpening(k, Shorter(r)) && r.code != [] && (r.gap || r.cr || r.lf)
    ensures var o := StepStatus(k, Last(r));
            InOpening(o.core, r) && !o.exit && o.kind == OpeningKind(r) && HeadOpen(o.notes)
  {
    hide DecimalOf, IsNumeral, LineEnds, Digit;
    assert !IsNum(' ') && !IsNum('\r') && !IsNum('\n');
    hide IsNum;
  }

  lemma NumberForward(k: Core, r: Opening)
    requires ValidOpening(r) && InOpening(k, Shorter(r)) && r.code != [] && !r.gap && !r.cr && !r.lf
    ensures var o := StepStatus(k, Last(r));
            InOpening(o.core, r) && !o.exit && o.kind == None && HeadOpen(o.notes)
  {
    DecimalNone();
    NumeralFront(r.code);
    hide DecimalOf, IsNumeral, LineEnds, NoLineEnd, Digit;
  }

  /** With one more byte */
  function Longer(r: Opening, ch: Byte): Opening {
    match OpeningState(r)
    case LineAlmostDone => r.(lf := true)
    case Status => if ch == '\r' then r.(cr := true) else if ch == '\n' then r.(lf := true)
                   else r.(reason := r.reason + [ch])
    case StatusStart => if ch == '\r' then r.(cr := true) else if ch == '\n' then r.(lf := true)
                        else r.(reason := r.reason + [ch])
    case StatusCode =>
      if ch == ' ' then r.(gap := true) else if ch == '\r' then r.(cr := true) else if ch == '\n' then r.(lf := true)
      else r.(code := r.code + [ch])
    case FirstStatusCode => if ch == ' ' then r.(gaps := r.gaps + 1) else r.(code := r.code + [ch])
    case HttpMinor => if ch == ' ' then r.(gaps := r.gaps + 1) else r.(minor := r.minor + [ch])
    case FirstHttpMinor => r.(minor := r.minor + [ch])
    case HttpMajor => if ch == '.' then r.(dot := true) else r.(major := r.major + [ch])
    case FirstHttpMajor => r.(major := r.major + [ch])
    case StartRes => if ch == 'H' then r.(word := 1) else r.(blanks := r.blanks + [ch])
    case _ => r.(word := r.word + 1)
  }

  /** A byte that is not refused goes on with a status line. */
  lemma OpeningBackward(noBody: Core -> bool, k: Core, r: Opening, ch: Byte)
    requires ValidOpening(r) && !r.lf && InOpening(k, r) && Step(noBody, k, ch).core.errno == OK
    ensures ValidOpening(Longer(r, ch)) && Longer(r, ch) != NOTHING
    ensures Shorter(Longer(r, ch)) == r && Last(Longer(r, ch)) == ch
  {
    IsStatusLine(noBody, k, ch, r);
    hide Step, StepStatus, StepStatusLine;
    if r.code != [] {
      CodeBackward(k, r, ch);
    } else if r.major != [] {
      VersionBackward(k, r, ch);
    } else {
      WordBackward(k, r, ch);
    }
  }

  lemma OneMore(s: seq<Byte>, ch: Byte)
    ensures (s + [ch])[..|s + [ch]| - 1] == s && (s + [ch])[|s + [ch]| - 1] == ch && s + [ch] != []
    ensures LineEnds(s) && (ch == '\r' || ch == '\n') ==> LineEnds(s + [ch])
    ensures NoLineEnd(s) && ch != '\r' && ch != '\n' ==> NoLineEnd(s + [ch])
  {}

  lemma OneMoreDigit(s: seq<Byte>, ch: Byte)
    requires IsNumeral(s) && IsNum(ch)
    ensures IsNumeral(s + [ch]) <==> DecimalOf(s) * 10 + Digit(ch) <= 999
  {
    var t := s + [ch];
    assert t[..|t| - 1] == s;
  }

  lemma WordBackward(k: Core, r: Opening, ch: Byte)
    requires ValidOpening(r) && !r.lf && InOpening(k, r) && StepStatusLine(k, ch).core.errno == OK && r.major == []
    ensures ValidOpening(Longer(r, ch)) && Longer(r, ch) != NOTHING
    ensures Shorter(Longer(r, ch)) == r && Last(Longer(r, ch)) == ch
  {
    OneMore(r.blanks, ch);
    OneMore(r.major, ch);
    DecimalNone();
    if IsNum(ch) { OneMoreDigit([], ch); }
    hide StepHeaderFieldStart, StepHeaderField, StepHeaderEnds, StepHeaderValue, StepChunkSize, DecimalOf, StepStatus;
    hide StepHeadersAlmostDone, StepHeadersDone, StepBody, IsNumeral, NoLineEnd, LineEnds, Digit;
  }

  lemma VersionBackward(k: Core, r: Opening, ch: Byte)
    requires ValidOpening(r) && !r.lf && InOpening(k, r) && StepStatusLine(k, ch).core.errno == OK
    requires r.major != [] && r.code == []
    ensures ValidOpening(Longer(r, ch)) && Longer(r, ch) != NOTHING
    ensures Shorter(Longer(r, ch)) == r && Last(Longer(r, ch)) == ch
  {
    if r.gaps > 0 {
      GapBackward(k, r, ch);
    } else if r.dot {
      MinorBackward(k, r, ch);
    } else {
      MajorBackward(k, r, ch);
    }
  }

  lemma GapBackward(k: Core, r: Opening, ch: Byte)
    requires ValidOpening(r) && !r.lf && InOpening(k, r) && StepStatusLine(k, ch).core.errno == OK
    requires r.gaps > 0 && r.code == []
    ensures ValidOpening(Longer(r, ch)) && Longer(r, ch) != NOTHING
    ensures Shorter(Longer(r, ch)) == r && Last(Longer(r, ch)) == ch
  {
    DecimalNone();
    OneMore(r.code, ch);
    if IsNum(ch) { OneMoreDigit([], ch); }
    hide DecimalOf, IsNumeral, NoLineEnd, LineEnds, Digit;
  }

  lemma MinorBackward(k: Core, r: Opening, ch: Byte)
    requires ValidOpening(r) && !r.lf && InOpening(k, r) && StepStatusLine(k, ch).core.errno == OK
    requires r.dot && r.gaps == 0
    ensures ValidOpening(Longer(r, ch)) && Longer(r, ch) != NOTHING
    ensures Shorter(Longer(r, ch)) == r && Last(Longer(r, ch)) == ch
  {
    DecimalNone();
    OneMore(r.minor, ch);
    if IsNum(ch) { OneMoreDigit(r.minor, ch); }
    hide DecimalOf, IsNumeral, NoLineEnd, LineEnds, Digit, StepStatus;
  }

  lemma MajorBackward(k: Core, r: Opening, ch: Byte)
    requires ValidOpening(r) && !r.lf && InOpening(k, r) && StepStatusLine(k, ch).core.errno == OK
    requires r.major != [] && !r.dot
    ensures ValidOpening(Longer(r, ch)) && Longer(r, ch) != NOTHING
    ensures Shorter(Longer(r, ch)) == r && Last(Longer(r, ch)) == ch
  {
    OneMore(r.major, ch);
    if IsNum(ch) { OneMoreDigit(r.major, ch); }
    hide DecimalOf, IsNumeral, NoLineEnd, LineEnds, Digit, StepStatus;
  }

  lemma CodeBackward(k: Core, r: Opening, ch: Byte)
    requires ValidOpening(r) && !r.lf && InOpening(k, r) && StepStatus(k, ch).core.errno == OK && r.code != []
    ensures ValidOpening(Longer(r, ch)) && Longer(r, ch) != NOTHING
    ensures Shorter(Longer(r, ch)) == r && Last(Longer(r, ch)) == ch
  {
    if r.gap || r.cr {
      ReasonBackward(k, r, ch);
    } else {
      NumberBackward(k, r, ch);
    }
  }

  lemma ReasonBackward(k: Core, r: Opening, ch: Byte)
    requires ValidOpening(r) && !r.lf && InOpening(k, r) && StepStatus(k, ch).core.errno == OK && r.code != []
    requires r.gap || r.cr
    ensures ValidOpening(Longer(r, ch)) && Longer(r, ch) != NOTHING
    ensures Shorter(Longer(r, ch)) == r && Last(Longer(r, ch)) == ch
  {
    OneMore(r.reason, ch);
    hide DecimalOf, IsNumeral, LineEnds, NoLineEnd, Digit, IsNum;
  }

  lemma NumberBackward(k: Core, r: Opening, ch: Byte)
    requires ValidOpening(r) && !r.lf && InOpening(k, r) && StepStatus(k, ch).core.errno == OK && r.code != []
    requires !r.gap && !r.cr
    ensures ValidOpening(Longer(r, ch)) && Longer(r, ch) != NOTHING
    ensures Shorter(Longer(r, ch)) == r && Last(Longer(r, ch)) == ch
  {
    OneMore(r.code, ch);
    if IsNum(ch) { OneMoreDigit(r.code, ch); }
    hide DecimalOf, IsNumeral, LineEnds, NoLineEnd, Digit;
  }

  // Header fields

  /** A header field as far as it has been read: its name, the colon, and everything behind it with its line ends. */
  datatype Field = Field(name: seq<Byte>, colon: bool, body: seq<Byte>)

  /** A line feed follows every carriage return, and a space or a tab every line feed: the value goes on there. */
  predicate Folded(b: seq<Byte>) {
    forall i :: 0 <= i < |b| - 1 ==>
      (b[i] == '\r' ==> b[i + 1] == '\n') && (b[i] == '\n' ==> b[i + 1] == ' ' || b[i + 1] == '\t')
  }

  predicate ValidField(f: Field) {
    f.name != [] && Tokens(f.name) && (f.body != [] ==> f.colon) && Folded(f.body)
  }

  /** The line has ended. */
  predicate Whole(f: Field) {
    f.body != [] && f.body[|f.body| - 1] == '\n'
  }

  predicate IsGround(c: Byte) {
    c == ' ' || c == '\t' || c == '\r' || c == '\n'
  }

  /** A value has begun: there is something else than white space and line ends. */
  predicate Valued(b: seq<Byte>) {
    exists i :: 0 <= i < |b| && !IsGround(b[i])
  }

  /** The value: from the first byte that is no white space on, without line ends. */
  function ValueOf(b: seq<Byte>): seq<Byte> {
    if !Valued(b) then []
    else
      var last := b[|b| - 1];
      ValueOf(b[..|b| - 1]) + (if last == '\r' || last == '\n' then [] else [last])
  }

  function FieldText(f: Field): seq<Byte> {
    f.name + Sign(f.colon, ':') + f.body
  }

  function FieldState(f: Field): State {
    if !f.colon then HeaderField
    else if f.body == [] then DiscardWs
    else if f.body[|f.body| - 1] == '\r' then (if Valued(f.body) then HeaderAlmostDone else DiscardWsAlmostDone)
    else if f.body[|f.body| - 1] == '\n' then (if Valued(f.body) then HeaderValueLws else DiscardLws)
    else if Valued(f.body) then HeaderValue
    else DiscardWs
  }

  function FieldKind(f: Field): Option<Kind> {
    if !f.colon then Some(FieldName)
    else if Valued(f.body) && f.body[|f.body| - 1] != '\r' && f.body[|f.body| - 1] != '\n' then Some(FieldValue)
    else None
  }

  predicate InField(k: Core, s: State) {
    k.errno == OK && k.state == s && !k.flags.trailing
  }

  predicate LineStart(s: State) {
    s.HeaderFieldStart? || s.DiscardLws? || s.HeaderValueLws?
  }

  lemma ValuedSnoc(b: seq<Byte>, ch: Byte)
    ensures Valued(b + [ch]) <==> Valued(b) || !IsGround(ch)
    ensures Folded(b + [ch]) <==>
              Folded(b) && (b != [] ==> (b[|b| - 1] == '\r' ==> ch == '\n')
                                        && (b[|b| - 1] == '\n' ==> ch == ' ' || ch == '\t'))
    ensures !Valued([]) && Folded([])
  {
    var t := b + [ch];
    assert t[|b|] == ch && forall i :: 0 <= i < |b| ==> t[i] == b[i];
    if Valued(b) {
      var i :| 0 <= i < |b| && !IsGround(b[i]);
      assert !IsGround(t[i]);
    }
    if Folded(t) {
      forall i | 0 <= i < |b| - 1
        ensures (b[i] == '\r' ==> b[i + 1] == '\n') && (b[i] == '\n' ==> b[i + 1] == ' ' || b[i + 1] == '\t')
      {
        assert t[i] == b[i] && t[i + 1] == b[i + 1];
      }
      if b != [] { assert t[|b| - 1] == b[|b| - 1]; }
    }
  }

  /** The steps of a value, by their states. */
  lemma BodyStep(noBody: Core -> bool, k: Core, ch: Byte)
    requires k.errno == OK && !k.flags.trailing
    ensures var o := Step(noBody, k, ch);
            && (k.state.DiscardWs? && (ch == ' ' || ch == '\t') ==> o == Go(k, DiscardWs))
            && (k.state.DiscardWs? && ch == '\r' ==> o == Go(k, DiscardWsAlmostDone))
            && (k.state.DiscardWs? && ch == '\n' ==> o == Go(k, DiscardLws))
            && (k.state.DiscardWs? && !IsGround(ch) ==> o == StepHeaderValueStart(k, ch))
            && (k.state.DiscardWsAlmostDone? ==> o == if ch == '\n' then Go(k, DiscardLws) else Fail(k, Strict))
            && (k.state.DiscardLws? && (ch == ' ' || ch == '\t') ==> o == Go(k, DiscardWs))
            && (k.state.HeaderValue? ==> o == StepHeaderValue(k, ch))
            && (k.state.HeaderAlmostDone? ==> o == if ch == '\n' then Go(k, HeaderValueLws) else Fail(k, Strict))
            && (k.state.HeaderValueLws? && (ch == ' ' || ch == '\t') ==> o == StepHeaderValueStart(k, ch))
  {
    hide StepHeaderFieldStart, StepHeaderField, StepHeaderValue, StepChunkSize, StepHeaderValueStart, StepStatusLine;
    hide StepHeadersAlmostDone, StepHeadersDone, StepBody, Finished;
  }

  /** A value begins, or is refused as a length. */
  lemma ValueStartByte(k: Core, ch: Byte)
    requires k.errno == OK && !k.flags.trailing
    ensures var o := StepHeaderValueStart(k, ch);
            o.core.errno == InvalidContentLength
            || (InField(o.core, HeaderValue) && !o.exit && o.kind == Some(FieldValue) && o.notes == [])
  {
    hide Digit, Lower;
  }

  /** A value goes on or ends, or is refused as a length. */
  lemma ValueByte(k: Core, ch: Byte)
    requires k.errno == OK && !k.flags.trailing
    ensures var o := StepHeaderValue(k, ch);
            && (ch == '\r' ==> InField(o.core, HeaderAlmostDone) && !o.exit && o.kind == None && o.notes == [])
            && (ch == '\n' ==> InField(o.core, HeaderValueLws) && !o.exit && o.kind == None && o.notes == [])
            && (ch != '\r' && ch != '\n' ==>
                o.core.errno == InvalidContentLength
                || (InField(o.core, HeaderValue) && !o.exit && o.kind == Some(FieldValue) && o.notes == []))
  {
    hide ValueChar;
    CharKept(k, ch);
  }

  lemma CharKept(k: Core, ch: Byte)
    requires k.errno == OK && !k.flags.trailing
    ensures var k' := ValueChar(k, ch); k'.errno == OK || k'.errno == InvalidContentLength
    ensures !ValueChar(k, ch).flags.trailing
  {
    hide Lower, IsToken, Differs, Digit;
  }

  /** A byte behind the colon is taken, unless it is refused as a length. */
  lemma BodyForward(noBody: Core -> bool, k: Core, f: Field, ch: Byte)
    requires ValidField(f) && f.colon && ValidField(f.(body := f.body + [ch])) && InField(k, FieldState(f))
    ensures var o, f' := Step(noBody, k, ch), f.(body := f.body + [ch]);
            o.core.errno == InvalidContentLength
            || (InField(o.core, FieldState(f')) && !o.exit && o.kind == FieldKind(f') && o.notes == [])
  {
    ValuedSnoc(f.body, ch);
    hide Valued, Folded;
    var t := f.body + [ch];
    assert t[|f.body|] == ch;
    hide Step, StepHeaderValueStart, StepHeaderValue;
    BodyStep(noBody, k, ch);
    if k.state == HeaderValue {
      ValueByte(k, ch);
    } else {
      ValueStartByte(k, ch);
    }
  }

  /** A byte behind the colon that goes on there, and is not refused, is as it must be. */
  lemma BodyBackward(noBody: Core -> bool, k: Core, f: Field, ch: Byte)
    requires ValidField(f) && f.colon && InField(k, FieldState(f)) && Step(noBody, k, ch).core.errno == OK
    requires Whole(f) ==> ch == ' ' || ch == '\t'
    ensures ValidField(f.(body := f.body + [ch]))
  {
    ValuedSnoc(f.body, ch);
    BodyStep(noBody, k, ch);
    hide Step, StepHeaderValueStart, StepHeaderValue, Valued, Folded;
  }

  /** Bytes of a name, and the colon */
  lemma NameByte(noBody: Core -> bool, k: Core, ch: Byte)
    requires InField(k, HeaderField)
    ensures var o := Step(noBody, k, ch);
            && (IsToken(ch) ==>
                InField(o.core, HeaderField) && !o.exit && o.kind == Some(FieldName) && o.notes == [])
            && (ch == ':' ==> InField(o.core, DiscardWs) && !o.exit && o.kind == None && o.notes == [])
            && (o.core.errno == OK ==> IsToken(ch) || ch == ':')
            && !IsToken(':')
  {
    hide StepHeaderFieldStart, StepHeaderEnds, StepHeaderValue, StepChunkSize, StepHeaderValueStart, StepStatusLine;
    hide StepHeadersAlmostDone, StepHeadersDone, StepBody, Differs, TokenOf;
  }

  /** At the start of a line */
  lemma LineByte(noBody: Core -> bool, k: Core, ch: Byte)
    requires k.errno == OK && LineStart(k.state) && !k.flags.trailing
    ensures var o := Step(noBody, k, ch);
            && (IsToken(ch) ==>
                InField(o.core, HeaderField) && !o.exit && o.kind == Some(FieldName) && o.notes == [])
            && (ch == '\r' ==> InField(o.core, HeadersAlmostDone) && !o.exit && o.kind == None && o.notes == [])
            && (ch == '\n' && o.core.errno == OK ==> !HeadOpen(o.notes))
            && (o.core.errno == OK ==>
                IsToken(ch) || ch == '\r' || ch == '\n'
                || (!k.state.HeaderFieldStart? && (ch == ' ' || ch == '\t')))
            && !IsToken('\r') && !IsToken('\n') && !IsToken(' ') && !IsToken('\t')
  {
    FinishedGoes(k);
    FirstByte(noBody, k, ch);
    FirstByte(noBody, Finished(k), ch);
    hide StepHeaderFieldStart, StepHeaderField, StepHeaderValue, StepChunkSize, StepHeaderValueStart, StepStatusLine;
    hide StepHeadersAlmostDone, StepHeadersDone, StepBody, Finished, HeadOpen, IsToken;
    LineSteps(noBody, k, ch);
    hide Step, StepHeaderEnds;
  }

  lemma LineSteps(noBody: Core -> bool, k: Core, ch: Byte)
    ensures k.state.HeaderFieldStart? ==>
              Step(noBody, k, ch) == StepHeaderFieldStart(noBody, k.(state := HeaderFieldStart), ch)
    ensures (k.state.DiscardLws? || k.state.HeaderValueLws?) && ch != ' ' && ch != '\t' ==>
              Step(noBody, k, ch) == StepHeaderFieldStart(noBody, Finished(k).(state := HeaderFieldStart), ch)
  {
    hide StepHeaderFieldStart, StepHeaderField, StepHeaderValue, StepChunkSize, StepHeaderValueStart, StepStatusLine;
    hide StepHeadersAlmostDone, StepHeadersDone, StepBody, Finished;
  }

  lemma FinishedGoes(k: Core)
    requires k.errno == OK && !k.flags.trailing
    ensures Finished(k).errno == OK && !Finished(k).flags.trailing
  {}

  lemma FirstByte(noBody: Core -> bool, k: Core, ch: Byte)
    requires k.errno == OK && !k.flags.trailing
    ensures var o := StepHeaderFieldStart(noBody, k.(state := HeaderFieldStart), ch);
            && (IsToken(ch) ==>
                InField(o.core, HeaderField) && !o.exit && o.kind == Some(FieldName) && o.notes == [])
            && (ch == '\r' ==> InField(o.core, HeadersAlmostDone) && !o.exit && o.kind == None && o.notes == [])
            && (ch == '\n' && o.core.errno == OK ==> !HeadOpen(o.notes))
            && (o.core.errno == OK ==> IsToken(ch) || ch == '\r' || ch == '\n')
            && !IsToken('\r') && !IsToken('\n') && !IsToken(' ') && !IsToken('\t')
  {
    HeadEnds(noBody, k.(state := HeadersAlmostDone), ch);
    hide StepHeadersAlmostDone, TokenOf;
  }

  /** The last line feed completes the header. */
  lemma HeadEnds(noBody: Core -> bool, k: Core, ch: Byte)
    requires !k.flags.trailing
    ensures var o := StepHeadersAlmostDone(noBody, k, ch);
            if ch == '\n' then o.notes != [] && o.notes[0] == HeadersComplete(k.status) else o.core.errno != OK
  {
    hide StepHeadersDone;
  }

  lemma AlmostDone(noBody: Core -> bool, k: Core, ch: Byte)
    requires InField(k, HeadersAlmostDone)
    ensures Step(noBody, k, ch).core.errno == OK ==> !HeadOpen(Step(noBody, k, ch).notes)
  {
    hide StepHeadersAlmostDone;
    HeadEnds(noBody, k, ch);
  }

  // Whole headers

  /**
   * A header that is not complete yet: its status line, its fields, of which only the last one may be unfinished, and
   * the carriage return of the empty line.
   */
  datatype Heading = Heading(opening: Opening, fields: seq<Field>, cr: bool)

  predicate ValidFields(fields: seq<Field>) {
    && (forall i :: 0 <= i < |fields| ==> ValidField(fields[i]))
    && forall i :: 0 <= i < |fields| - 1 ==> Whole(fields[i])
  }

  predicate ValidHeading(h: Heading) {
    && ValidOpening(h.opening) && ValidFields(h.fields)
    && (h.fields != [] || h.cr ==> h.opening.lf)
    && (h.cr && h.fields != [] ==> Whole(h.fields[|h.fields| - 1]))
  }

  function FieldsText(fields: seq<Field>): seq<Byte> {
    if fields == [] then [] else FieldsText(fields[..|fields| - 1]) + FieldText(fields[|fields| - 1])
  }

  function HeadingText(h: Heading): seq<Byte>
    requires h.opening.word <= 5
  {
    OpeningText(h.opening) + FieldsText(h.fields) + Sign(h.cr, '\r')
  }

  function HeadingState(h: Heading): State {
    if h.cr then HeadersAlmostDone
    else if h.fields != [] then FieldState(h.fields[|h.fields| - 1])
    else OpeningState(h.opening)
  }

  /** The data of each kind: the reason, the names, and the values */
  function Told(h: Heading, kind: Kind): seq<Byte> {
    match kind
    case StatusText => h.opening.reason
    case FieldName => Names(h.fields)
    case FieldValue => FieldValues(h.fields)
    case Body => []
  }

  function Names(fields: seq<Field>): seq<Byte> {
    if fields == [] then [] else Names(fields[..|fields| - 1]) + fields[|fields| - 1].name
  }

  function FieldValues(fields: seq<Field>): seq<Byte> {
    if fields == [] then [] else FieldValues(fields[..|fields| - 1]) + ValueOf(fields[|fields| - 1].body)
  }

  /** Where the parser is in a header. */
  predicate InHeading(k: Core, h: Heading) {
    if h.fields == [] && !h.cr then InOpening(k, h.opening) else InField(k, HeadingState(h))
  }

  /** Between lines */
  predicate AtLine(h: Heading) {
    h.opening.lf && !h.cr && (h.fields != [] ==> Whole(h.fields[|h.fields| - 1]))
  }

  const NO_HEADING := Heading(NOTHING, [], false)

  // One byte more

  /** A field with one more byte */
  predicate NextField(f: Field, ch: Byte, f': Field) {
    || (!f.colon && IsToken(ch) && f' == f.(name := f.name + [ch]))
    || (!f.colon && ch == ':' && f' == f.(colon := true))
    || (f.colon && f' == f.(body := f.body + [ch]) && ValidField(f'))
  }

  predicate Next(h: Heading, ch: Byte, h': Heading) {
    || (h.fields == [] && !h.cr && h' == h.(opening := h'.opening) && ValidOpening(h'.opening) && h'.opening != NOTHING
        && Shorter(h'.opening) == h.opening && Last(h'.opening) == ch)
    || (AtLine(h) && IsToken(ch) && h' == h.(fields := h.fields + [Field([ch], false, [])]))
    || (h.fields != [] && !h.cr && |h'.fields| == |h.fields|
        && h' == h.(fields := h.fields[..|h.fields| - 1] + [h'.fields[|h.fields| - 1]])
        && NextField(h.fields[|h.fields| - 1], ch, h'.fields[|h.fields| - 1]))
    || (AtLine(h) && ch == '\r' && h' == h.(cr := true))
  }

  lemma NextFieldValid(f: Field, ch: Byte, f': Field)
    requires ValidField(f) && NextField(f, ch, f')
    ensures ValidField(f') && FieldText(f') == FieldText(f) + [ch]
  {
    hide IsToken, Folded;
    var colon := Sign(f.colon, ':');
    if !f.colon {
      assert f.body == [];
      NoMore(f.name);
      NoMore(f.name + [ch]);
      NoMore(f.name + [':']);
      assert Tokens(f.name) && IsToken(ch) ==> Tokens(f.name + [ch]);
    } else {
      assert f.name + colon + (f.body + [ch]) == f.name + colon + f.body + [ch];
    }
  }

  lemma OneByteField(ch: Byte)
    requires IsToken(ch)
    ensures ValidField(Field([ch], false, [])) && FieldText(Field([ch], false, [])) == [ch]
  {
    hide IsToken;
  }

  lemma FieldsSnoc(fields: seq<Field>, f: Field)
    ensures FieldsText(fields + [f]) == FieldsText(fields) + FieldText(f)
    ensures Names(fields + [f]) == Names(fields) + f.name
    ensures FieldValues(fields + [f]) == FieldValues(fields) + ValueOf(f.body)
  {
    assert (fields + [f])[..|fields|] == fields;
  }

  lemma FieldsFront(fields: seq<Field>)
    requires fields != []
    ensures fields == fields[..|fields| - 1] + [fields[|fields| - 1]]
  {}

  /** Such a header is valid, and its text is one byte longer. */
  lemma NextText(h: Heading, ch: Byte, h': Heading)
    requires ValidHeading(h) && Next(h, ch, h')
    ensures ValidHeading(h') && HeadingText(h') == HeadingText(h) + [ch]
  {
    hide ValidOpening, Shorter, Last, OpeningText, FieldText, IsToken, ValidField, Whole, NextField;
    WordOfValid(h.opening);
    var opening := OpeningText(h.opening);
    if h'.cr && !h.cr {
      NoMore(opening + FieldsText(h.fields));
    } else if |h'.fields| > |h.fields| {
      var f := Field([ch], false, []);
      OneByteField(ch);
      FieldsSnoc(h.fields, f);
      LongerFields(h.fields, f);
      NoMore(opening + FieldsText(h.fields));
      NoMore(opening + FieldsText(h'.fields));
      Regroup(opening, FieldsText(h.fields), [], [ch]);
    } else if h.fields != [] {
      var front, f, f' := h.fields[..|h.fields| - 1], h.fields[|h.fields| - 1], h'.fields[|h.fields| - 1];
      FieldsFront(h.fields);
      NextFieldValid(f, ch, f');
      FieldsSnoc(front, f);
      FieldsSnoc(front, f');
      ChangedLast(h.fields, f');
      NoMore(opening + FieldsText(h.fields));
      NoMore(opening + FieldsText(h'.fields));
      Regroup(opening, FieldsText(front), FieldText(f), [ch]);
    } else {
      NextOpening(h, ch, h');
    }
  }

  lemma WordOfValid(r: Opening)
    requires ValidOpening(r)
    ensures r.word <= 5
  {}

  lemma Regroup(a: seq<Byte>, b: seq<Byte>, c: seq<Byte>, d: seq<Byte>)
    ensures a + (b + (c + d)) == a + (b + c) + d && [] + d == d && b + [] == b
  {}

  lemma LongerFields(fields: seq<Field>, f: Field)
    requires ValidFields(fields) && ValidField(f) && (fields != [] ==> Whole(fields[|fields| - 1]))
    ensures ValidFields(fields + [f])
  {
    hide ValidField, Whole;
  }

  lemma ChangedLast(fields: seq<Field>, f: Field)
    requires ValidFields(fields) && fields != [] && ValidField(f)
    ensures ValidFields(fields[..|fields| - 1] + [f])
  {
    hide ValidField, Whole;
  }

  lemma NextOpening(h: Heading, ch: Byte, h': Heading)
    requires ValidHeading(h) && h.fields == [] && !h.cr && h' == h.(opening := h'.opening)
    requires ValidOpening(h'.opening) && h'.opening != NOTHING
    requires Shorter(h'.opening) == h.opening && Last(h'.opening) == ch
    ensures ValidHeading(h') && HeadingText(h') == HeadingText(h) + [ch]
  {
    ShorterText(h'.opening);
    hide ValidOpening, Shorter, Last, OpeningText;
    NoMore(OpeningText(h.opening));
    NoMore(OpeningText(h'.opening));
  }

  /** What kind of data the last byte is. */
  function LastKind(h: Heading): Option<Kind> {
    if h.cr then None
    else if h.fields != [] then FieldKind(h.fields[|h.fields| - 1])
    else OpeningKind(h.opening)
  }

  /** The parser takes such a byte, unless it refuses it as a length. */
  lemma NextStep(noBody: Core -> bool, k: Core, h: Heading, ch: Byte, h': Heading)
    requires ValidHeading(h) && Next(h, ch, h') && InHeading(k, h)
    ensures var o := Step(noBody, k, ch);
            o.core.errno == InvalidContentLength
            || (InHeading(o.core, h') && !o.exit && o.core.errno == OK && o.kind == LastKind(h'))
    ensures HeadOpen(Step(noBody, k, ch).notes)
  {
    hide Step, OpeningState, InOpening, ValidOpening, Shorter, Last, IsToken, ValidField, NextField, FieldState, Folded;
    if h'.cr && !h.cr {
      LineState(k, h);
      LineByte(noBody, k, ch);
    } else if |h'.fields| > |h.fields| {
      LineState(k, h);
      LineByte(noBody, k, ch);
      FreshField(ch);
    } else if h.fields != [] {
      var f, f' := h.fields[|h.fields| - 1], h'.fields[|h.fields| - 1];
      FieldForward(noBody, k, f, ch, f');
    } else {
      OpeningForward(noBody, k, h'.opening);
      OpeningOk(Step(noBody, k, ch).core, h'.opening);
    }
  }

  lemma OpeningOk(k: Core, r: Opening)
    requires InOpening(k, r)
    ensures k.errno == OK
  {}

  lemma FreshField(ch: Byte)
    ensures FieldState(Field([ch], false, [])) == HeaderField && FieldKind(Field([ch], false, [])) == Some(FieldName)
  {}

  /** Between lines the parser is in one of three states. */
  lemma LineState(k: Core, h: Heading)
    requires ValidHeading(h) && AtLine(h) && InHeading(k, h)
    ensures k.errno == OK && LineStart(k.state) && !k.flags.trailing
  {
    if h.fields != [] {
      hide ValidOpening, InOpening, Valued;
      var f := h.fields[|h.fields| - 1];
      assert ValidField(f) && Whole(f);
    }
  }

  lemma FieldForward(noBody: Core -> bool, k: Core, f: Field, ch: Byte, f': Field)
    requires ValidField(f) && NextField(f, ch, f') && InField(k, FieldState(f))
    ensures var o := Step(noBody, k, ch);
            o.core.errno == InvalidContentLength
            || (InField(o.core, FieldState(f')) && !o.exit && o.kind == FieldKind(f'))
    ensures HeadOpen(Step(noBody, k, ch).notes)
  {
    hide Step, IsToken, Folded, Valued;
    if f.colon {
      BodyForward(noBody, k, f, ch);
      BodyQuiet(noBody, k, f, ch);
    } else {
      NameByte(noBody, k, ch);
      NothingValued();
    }
  }

  lemma NothingValued()
    ensures !Valued([])
  {}

  /** In a value no header is completed. */
  lemma BodyQuiet(noBody: Core -> bool, k: Core, f: Field, ch: Byte)
    requires ValidField(f) && f.colon && ValidField(f.(body := f.body + [ch])) && InField(k, FieldState(f))
    ensures Step(noBody, k, ch).notes == []
  {
    ValuedSnoc(f.body, ch);
    BodyStep(noBody, k, ch);
    ValueNotes(k, ch);
    hide Step, StepHeaderValueStart, StepHeaderValue, Valued, Folded;
  }

  lemma ValueNotes(k: Core, ch: Byte)
    ensures StepHeaderValueStart(k, ch).notes == [] && StepHeaderValue(k, ch).notes == []
  {
    hide ValueChar, Digit, Lower;
  }

  /** And it takes no other. */
  lemma StepNext(noBody: Core -> bool, k: Core, h: Heading, ch: Byte) returns (h': Heading)
    requires ValidHeading(h) && InHeading(k, h) && Step(noBody, k, ch).core.errno == OK
    requires HeadOpen(Step(noBody, k, ch).notes)
    ensures Next(h, ch, h')
  {
    hide Step, OpeningState, InOpening, ValidOpening, Shorter, Last, IsToken, ValidField, Folded, HeadOpen;
    if h.cr {
      AlmostDone(noBody, k, ch);
      h' := h;
    } else if AtLine(h) {
      LineState(k, h);
      LineByte(noBody, k, ch);
      if ch == '\r' {
        h' := h.(cr := true);
      } else if IsToken(ch) {
        h' := h.(fields := h.fields + [Field([ch], false, [])]);
      } else {
        assert h.fields != [] by { if h.fields == [] { StartState(k, h); } }
        var f := h.fields[|h.fields| - 1];
        ColonOfWhole(f);
        BodyBackward(noBody, k, f, ch);
        h' := h.(fields := h.fields[..|h.fields| - 1] + [f.(body := f.body + [ch])]);
      }
    } else if h.fields != [] {
      var f' := FieldBackward(noBody, k, h.fields[|h.fields| - 1], ch);
      h' := h.(fields := h.fields[..|h.fields| - 1] + [f']);
    } else {
      OpeningBackward(noBody, k, h.opening, ch);
      h' := h.(opening := Longer(h.opening, ch));
    }
  }

  lemma StartState(k: Core, h: Heading)
    requires h.fields == [] && AtLine(h) && InHeading(k, h)
    ensures k.state == HeaderFieldStart
  {}

  lemma ColonOfWhole(f: Field)
    requires ValidField(f) && Whole(f)
    ensures f.colon
  {
    hide Folded;
  }

  lemma FieldBackward(noBody: Core -> bool, k: Core, f: Field, ch: Byte) returns (f': Field)
    requires ValidField(f) && !Whole(f) && InField(k, FieldState(f)) && Step(noBody, k, ch).core.errno == OK
    ensures NextField(f, ch, f')
  {
    hide Step, IsToken, Folded, Valued;
    if f.colon {
      BodyBackward(noBody, k, f, ch);
      f' := f.(body := f.body + [ch]);
    } else {
      NameByte(noBody, k, ch);
      f' := if ch == ':' then f.(colon := true) else f.(name := f.name + [ch]);
    }
  }

  /** What is told grows by the byte, if it is data. */
  lemma NextTold(h: Heading, ch: Byte, h': Heading, kind: Kind)
    requires ValidHeading(h) && Next(h, ch, h')
    ensures Told(h', kind) == Told(h, kind) + (if LastKind(h') == Some(kind) then [ch] else [])
  {
    hide ValidOpening, IsToken, Folded, Valued, Last;
    NoMore(Told(h, kind));
    if h'.cr && !h.cr {
    } else if |h'.fields| > |h.fields| {
      FieldsSnoc(h.fields, Field([ch], false, []));
      NothingValued();
      NoMore(FieldValues(h.fields));
    } else if h.fields != [] {
      var front, f, f' := h.fields[..|h.fields| - 1], h.fields[|h.fields| - 1], h'.fields[|h.fields| - 1];
      FieldsFront(h.fields);
      FieldsSnoc(front, f);
      FieldsSnoc(front, f');
      GrownField(f, ch, f');
      var more := if LastKind(h') == Some(kind) then [ch] else [];
      Twice(Names(front), f.name, more);
      Twice(FieldValues(front), ValueOf(f.body), more);
    } else {
      GrownOpening(h'.opening);
    }
  }

  lemma Twice(a: seq<Byte>, b: seq<Byte>, c: seq<Byte>)
    ensures a + (b + c) == a + b + c
  {}

  lemma GrownField(f: Field, ch: Byte, f': Field)
    requires ValidField(f) && NextField(f, ch, f')
    ensures f'.name == f.name + (if FieldKind(f') == Some(FieldName) then [ch] else [])
    ensures ValueOf(f'.body) == ValueOf(f.body) + (if FieldKind(f') == Some(FieldValue) then [ch] else [])
  {
    hide IsToken, Folded;
    NoMore(f.name);
    NoMore(ValueOf(f.body));
    NothingValued();
    if f.colon {
      ValuedSnoc(f.body, ch);
      hide Valued;
      var t := f.body + [ch];
      assert t[..|t| - 1] == f.body && t[|t| - 1] == ch;
      if Valued(t) && !Valued(f.body) { assert ValueOf(f.body) == []; }
    }
  }

  lemma GrownOpening(r: Opening)
    requires ValidOpening(r) && r != NOTHING
    ensures r.reason == Shorter(r).reason + (if OpeningKind(r) == Some(StatusText) then [Last(r)] else [])
  {
    hide LineEnds, NoLineEnd, IsNumeral;
    NoMore(r.reason);
    if r.reason != [] { EndsWith([], r.reason); }
  }

  // Runs

  /** The data of one kind among what the callbacks have seen */
  function Heard(seen: seq<Seen>, kind: Kind): seq<Byte> {
    if seen == [] then []
    else
      var last := seen[|seen| - 1];
      Heard(seen[..|seen| - 1], kind) + (if last.Data? && last.kind == kind then [last.byte] else [])
  }

  lemma {:induction false} HeardAppend(a: seq<Seen>, b: seq<Seen>, kind: Kind)
    ensures Heard(a + b, kind) == Heard(a, kind) + Heard(b, kind)
    decreases |b|
  {
    if b == [] {
      assert a + b == a;
    } else {
      var front := b[..|b| - 1];
      HeardAppend(a, front, kind);
      assert (a + b)[..|a + b| - 1] == a + front;
      var last := if b[|b| - 1].Data? && b[|b| - 1].kind == kind then [b[|b| - 1].byte] else [];
      assert Heard(a, kind) + Heard(front, kind) + last == Heard(a, kind) + (Heard(front, kind) + last);
    }
  }

  lemma {:induction false} NotesNotHeard(notes: seq<Note>, kind: Kind)
    ensures Heard(Notified(notes), kind) == []
    decreases |notes|
  {
    if notes != [] {
      NotesNotHeard(notes[1..], kind);
      HeardAppend([Notify(notes[0])], Notified(notes[1..]), kind);
    }
  }

  /** What has been seen and what is held for the next call of a callback */
  function SeenSoFar(t: Trace, kind: Kind): seq<Byte> {
    Heard(t.log + t.held, kind)
  }

  /** A byte adds itself to the data of its kind. */
  lemma HeardAfter(t: Trace, ch: Byte, o: Out, kind: Kind)
    ensures SeenSoFar(After(t, ch, o), kind) == SeenSoFar(t, kind) + (if o.kind == Some(kind) then [ch] else [])
  {
    hide Heard;
    var item: seq<Seen> := if o.kind.Some? then [Data(o.kind.value, ch)] else [];
    var notes := Notified(o.notes);
    assert t.held + item == if o.kind.Some? then t.held + [Data(o.kind.value, ch)] else t.held;
    NotesNotHeard(o.notes, kind);
    ItemHeard(o.kind, ch, kind);
    HeardAppend(t.log, t.held, kind);
    HeardAppend(t.held, item, kind);
    HeardAppend(t.log, t.held + item, kind);
    HeardAppend(t.log, notes, kind);
    HeardAppend(t.log + notes, t.held + item, kind);
    HeardAppend(t.log + (t.held + item), notes, kind);
    var l, h, i := Heard(t.log, kind), Heard(t.held, kind), Heard(item, kind);
    assert l + (h + i) == l + h + i && l + [] == l && l + (h + i) + [] == l + (h + i);
    if o.flush {
      assert (t.log + (t.held + item)) + notes + [] == (t.log + (t.held + item)) + notes;
    }
  }

  lemma ItemHeard(k: Option<Kind>, ch: Byte, kind: Kind)
    ensures Heard(if k.Some? then [Data(k.value, ch)] else [], kind) == if k == Some(kind) then [ch] else []
  {
    if k.Some? {
      var s := [Data(k.value, ch)];
      assert s[..|s| - 1] == [];
    }
  }

  lemma ReadSnoc(noBody: Core -> bool, t0: Trace, s: seq<Byte>, ch: Byte)
    ensures var t := Read(noBody, t0, s);
            Read(noBody, t0, s + [ch]) == if t.Going() then After(t, ch, Step(noBody, t.core, ch)) else t
  {
    hide Run, Step, ParserStep, After;
    ReadAppend(noBody, t0, s, [ch]);
    var t := Read(noBody, t0, s);
    if t.Going() {
      ReadOne(noBody, t, ch, Step(noBody, t.core, ch));
    } else {
      RunEnds(ParserStep(noBody), t, [ch], 0);
    }
  }

  /** No byte of s completes a header. */
  ghost predicate StillOpen(noBody: Core -> bool, t0: Trace, s: seq<Byte>) {
    forall p :: 0 <= p < |s| ==> HeadOpen(Step(noBody, Read(noBody, t0, s[..p]).core, s[p]).notes)
  }

  lemma OpenSnoc(noBody: Core -> bool, t0: Trace, s: seq<Byte>, ch: Byte)
    ensures StillOpen(noBody, t0, s + [ch])
            <==> StillOpen(noBody, t0, s) && HeadOpen(Step(noBody, Read(noBody, t0, s).core, ch).notes)
  {
    hide Step, HeadOpen, Run, Read;
    var t := s + [ch];
    assert t[..|s|] == s && t[|s|] == ch;
    forall p | 0 <= p < |s|
      ensures t[..p] == s[..p] && t[p] == s[p]
    {
    }
    if StillOpen(noBody, t0, t) {
      forall p | 0 <= p < |s|
        ensures HeadOpen(Step(noBody, Read(noBody, t0, s[..p]).core, s[p]).notes)
      {
        assert t[..p] == s[..p] && t[p] == s[p];
      }
      assert HeadOpen(Step(noBody, Read(noBody, t0, t[..|s|]).core, t[|s|]).notes);
    }
  }

  lemma Begins(k: Core)
    requires k.state == StartRes && k.errno == OK
    ensures ValidHeading(NO_HEADING) && HeadingText(NO_HEADING) == [] && InHeading(k, NO_HEADING)
    ensures forall kind :: Told(NO_HEADING, kind) == []
  {
    DecimalNone();
    assert WORD[..0] == [];
  }

  /** The header without its last byte, and that byte */
  lemma LastByte(h: Heading) returns (h1: Heading, ch: Byte)
    requires ValidHeading(h) && h != NO_HEADING
    ensures ValidHeading(h1) && Next(h1, ch, h)
  {
    hide ValidOpening, Shorter, Last, IsToken, Folded, Valued;
    if h.cr {
      h1, ch := h.(cr := false), '\r';
    } else if h.fields != [] {
      var front, f := h.fields[..|h.fields| - 1], h.fields[|h.fields| - 1];
      FieldsFront(h.fields);
      FrontValid(h.fields);
      var f1;
      f1, ch := LastOfField(f);
      if f1 == None {
        h1 := h.(fields := front);
      } else {
        h1 := h.(fields := front + [f1.value]);
        assert h1.fields[..|h1.fields| - 1] == front;
        ChangedLast(h.fields, f1.value);
      }
    } else {
      ShorterValid(h.opening);
      NotWhole(h.opening);
      WordOfValid(h.opening);
      h1, ch := h.(opening := Shorter(h.opening)), Last(h.opening);
    }
  }

  lemma NotWhole(r: Opening)
    ensures !Shorter(r).lf
  {}

  lemma FrontValid(fields: seq<Field>)
    requires ValidFields(fields) && fields != []
    ensures var front := fields[..|fields| - 1];
            ValidFields(front) && ValidField(fields[|fields| - 1]) && (front != [] ==> Whole(front[|front| - 1]))
  {
    hide ValidField, Whole;
  }

  lemma LastOfField(f: Field) returns (f1: Option<Field>, ch: Byte)
    requires ValidField(f)
    ensures if f1.None? then IsToken(ch) && f == Field([ch], false, [])
            else ValidField(f1.value) && NextField(f1.value, ch, f)
  {
    hide IsToken;
    NothingValued();
    if f.body != [] {
      ch := f.body[|f.body| - 1];
      var front := f.body[..|f.body| - 1];
      assert f.body == front + [ch];
      f1 := Some(f.(body := front));
    } else if f.colon {
      f1, ch := Some(f.(colon := false)), ':';
    } else {
      ch := f.name[|f.name| - 1];
      var front := f.name[..|f.name| - 1];
      assert f.name == front + [ch];
      f1 := if front == [] then None else Some(f.(name := front));
    }
  }

  /**
   * Every header of the language is read up to where it is, and told as its reason, its names and its values, unless
   * the bytes of a length are refused.
   */
  lemma {:induction false} HeadingRead(noBody: Core -> bool, t0: Trace, h: Heading)
    requires ValidHeading(h) && t0.Going() && t0.core.state == StartRes
    ensures h.opening.word <= 5
    ensures var t := Read(noBody, t0, HeadingText(h));
            || t.core.errno == InvalidContentLength
            || (t.Going() && InHeading(t.core, h)
                && forall kind :: SeenSoFar(t, kind) == SeenSoFar(t0, kind) + Told(h, kind))
    ensures Read(noBody, t0, HeadingText(h)).Going() ==> StillOpen(noBody, t0, HeadingText(h))
    decreases |HeadingTextOrNone(h)|
  {
    hide ValidHeading, HeadingText, Next, InHeading, Told, SeenSoFar, Step, Read, After, StillOpen, LastKind;
    WordOfHeading(h);
    if h == NO_HEADING {
      Begins(t0.core);
      ReadNothing(noBody, t0);
    } else {
      var h1, ch := LastByte(h);
      WordOfHeading(h1);
      NextText(h1, ch, h);
      var s := HeadingText(h1);
      HeadingRead(noBody, t0, h1);
      ReadSnoc(noBody, t0, s, ch);
      OpenSnoc(noBody, t0, s, ch);
      var t := Read(noBody, t0, s);
      if t.core.errno != InvalidContentLength {
        var o := Step(noBody, t.core, ch);
        NextStep(noBody, t.core, h1, ch, h);
        AfterGoes(t, ch, o);
        forall kind: Kind
          ensures SeenSoFar(t, kind) == SeenSoFar(t0, kind) + Told(h1, kind) ==>
                    SeenSoFar(After(t, ch, o), kind)
                    == SeenSoFar(t0, kind) + (Told(h1, kind) + (if o.kind == Some(kind) then [ch] else []))
          ensures Told(h, kind) == Told(h1, kind) + (if LastKind(h) == Some(kind) then [ch] else [])
        {
          HeardAfter(t, ch, o, kind);
          NextTold(h1, ch, h, kind);
          Twice(SeenSoFar(t0, kind), Told(h1, kind), if o.kind == Some(kind) then [ch] else []);
        }
      }
    }
  }

  function HeadingTextOrNone(h: Heading): seq<Byte> {
    if h.opening.word <= 5 then HeadingText(h) else []
  }

  lemma WordOfHeading(h: Heading)
    requires ValidHeading(h)
    ensures h.opening.word <= 5
  {}

  lemma ReadNothing(noBody: Core -> bool, t0: Trace)
    ensures Read(noBody, t0, []) == t0 && StillOpen(noBody, t0, [])
    ensures forall kind :: SeenSoFar(t0, kind) + [] == SeenSoFar(t0, kind)
  {
    hide SeenSoFar, Step;
  }

  lemma AfterGoes(t: Trace, ch: Byte, o: Out)
    ensures After(t, ch, o).core == o.core && (After(t, ch, o).Going() <==> o.core.errno == OK && !o.exit)
  {}

  /** Nothing else is read: bytes that are not refused and complete no header are one of the language. */
  lemma {:induction false} ReadIsHeading(noBody: Core -> bool, t0: Trace, s: seq<Byte>) returns (h: Heading)
    requires t0.Going() && t0.core.state == StartRes
    requires Read(noBody, t0, s).Going() && StillOpen(noBody, t0, s)
    ensures ValidHeading(h) && h.opening.word <= 5 && HeadingText(h) == s && InHeading(Read(noBody, t0, s).core, h)
    decreases |s|
  {
    hide ValidHeading, HeadingText, Next, InHeading, Step, Read, After, StillOpen, HeadOpen;
    if s == [] {
      h := NO_HEADING;
      Begins(t0.core);
      ReadNothing(noBody, t0);
    } else {
      var u, ch := s[..|s| - 1], s[|s| - 1];
      assert s == u + [ch];
      ReadSnoc(noBody, t0, u, ch);
      OpenSnoc(noBody, t0, u, ch);
      var h1 := ReadIsHeading(noBody, t0, u);
      var t := Read(noBody, t0, u);
      AfterGoes(t, ch, Step(noBody, t.core, ch));
      h := StepNext(noBody, t.core, h1, ch);
      NextText(h1, ch, h);
      NextStep(noBody, t.core, h1, ch, h);
    }
    WordOfHeading(h);
  }

  /** The beginning of a header in the language */
  ghost predicate IsHeading(s: seq<Byte>) {
    exists h: Heading :: ValidHeading(h) && h.opening.word <= 5 && HeadingText(h) == s
  }

  /**
   * What is read from the start of a response without completing its header are exactly the beginnings of headers in
   * this language; of those only some are refused, for their length.
   */
  lemma HeadLanguage(noBody: Core -> bool, t0: Trace, s: seq<Byte>)
    requires t0.Going() && t0.core.state == StartRes
    ensures var t := Read(noBody, t0, s);
            && (t.Going() && StillOpen(noBody, t0, s) ==> IsHeading(s))
            && (IsHeading(s) ==> (t.Going() && StillOpen(noBody, t0, s)) || t.core.errno == InvalidContentLength)
  {
    hide ValidHeading, HeadingText, Read, StillOpen, InHeading, Told;
    if Read(noBody, t0, s).Going() && StillOpen(noBody, t0, s) {
      var h := ReadIsHeading(noBody, t0, s);
    }
    if IsHeading(s) {
      var h: Heading :| ValidHeading(h) && h.opening.word <= 5 && HeadingText(h) == s;
      HeadingRead(noBody, t0, h);
    }
  }

  /** Between lines, and behind the last carriage return, a line feed completes the header. */
  lemma LineFeedCompletes(noBody: Core -> bool, k: Core, h: Heading)
    requires ValidHeading(h) && InHeading(k, h) && (AtLine(h) || h.cr)
    ensures var o := Step(noBody, k, '\n');
            o.core.errno == OK && o.notes != [] && o.notes[0].HeadersComplete?
  {
    if h.cr {
      hide ValidHeading;
      CompleteHead(noBody, k);
      hide StepHeadersAlmostDone;
    } else {
      LineState(k, h);
      hide ValidHeading, InHeading, AtLine;
      LineFeedAtLine(noBody, k);
    }
  }

  lemma LineFeedAtLine(noBody: Core -> bool, k: Core)
    requires k.errno == OK && LineStart(k.state) && !k.flags.trailing
    ensures var o := Step(noBody, k, '\n');
            o.core.errno == OK && o.notes != [] && o.notes[0].HeadersComplete?
  {
    FinishedGoes(k);
    CompleteHead(noBody, k);
    CompleteHead(noBody, Finished(k));
    hide Finished, StepHeaderFieldStart, StepHeadersAlmostDone;
  }

  lemma CompleteHead(noBody: Core -> bool, k: Core)
    requires k.errno == OK && !k.flags.trailing
    ensures var o := StepHeadersAlmostDone(noBody, k.(state := HeadersAlmostDone), '\n');
            o.core.errno == OK && o.notes != [] && o.notes[0].HeadersComplete?
    ensures StepHeaderFieldStart(noBody, k.(state := HeaderFieldStart), '\n')
            == StepHeadersAlmostDone(noBody, k.(state := HeadersAlmostDone), '\n')
  {}

  /**
   * Which bytes are refused in a chunk's size line: anything but digits that keep the size below 2^64 - 15, an
   * extension behind the digits, and the line end.
   */
  lemma SizeRefusals(noBody: Core -> bool, k: Core, ch: Byte)
    requires k.errno == OK
    ensures var refused := Step(noBody, k, ch).core.errno != OK;
            && (k.state.ChunkSizeStart? ==> (refused <==> HexPlace(ch) < 0))
            && (k.state.ChunkSize? ==>
                (refused <==>
                 (if HexPlace(ch) >= 0 then k.length * 16 + HexPlace(ch) >= CHUNK_LIMIT else ch !in {'\r', ';', ' '})))
            && (k.state.ChunkParameters? ==>
                !refused && (Step(noBody, k, ch).core.state != ChunkParameters <==> ch == '\r'))
            && (k.state.ChunkSizeAlmostDone? ==> (refused <==> ch != '\n'))
  {
    if k.state.ChunkSize? && HexPlace(ch) >= 0 {
      SizeDigit(noBody, k, ch);
      hide Step, HexPlace;
    } else if InChunks(k.state) && !k.state.ChunkData? && !k.state.ChunkDataAlmostDone? && !k.state.ChunkDataDone? {
      IsSizeLine(noBody, k, ch);
      UnhexIsPlace(ch);
      hide Step, HexPlace, Unhex;
    }
  }

  lemma IsSizeLine(noBody: Core -> bool, k: Core, ch: Byte)
    requires k.state.ChunkSizeStart? || k.state.ChunkSize? || k.state.ChunkParameters? || k.state.ChunkSizeAlmostDone?
    ensures Step(noBody, k, ch) == StepChunkSize(k, ch)
  {
    hide StepChunkSize;
  }

  /**
   * Behind a chunk's data anything but a line end is refused, within a body nothing; and after the last message of a
   * connection only line ends are taken.
   */
  lemma BodyRefusals(noBody: Core -> bool, k: Core, ch: Byte)
    requires k.errno == OK
    ensures var refused := Step(noBody, k, ch).core.errno != OK;
            && (k.state.ChunkDataAlmostDone? ==> (refused <==> ch != '\r'))
            && (k.state.ChunkDataDone? ==> (refused <==> ch != '\n'))
            && (k.state.ChunkData? || k.state.BodyIdentity? || k.state.BodyIdentityEof? ==> !refused)
            && (k.state.Dead? ==> (refused <==> ch != '\r' && ch != '\n'))
  {
    hide StepHeaderFieldStart, StepHeaderField, StepHeaderEnds, StepHeaderValue, StepHeadersAlmostDone, StepHeadersDone;
    hide NewMessage, StepChunkSize, StepStatus;
  }
}
