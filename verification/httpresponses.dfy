/** Whole responses, from the status line to the end of the body. */
module HttpResponses {
  import opened Bytes
  import opened HttpParser
  import opened HttpRuns
  import opened HttpLists
  import opened HttpNames
  import opened HttpMessages
  import HttpExecute

  /** HTTP/major.minor code reason */
  datatype StatusLine = StatusLine(major: seq<Byte>, minor: seq<Byte>, code: seq<Byte>, reason: seq<Byte>)

  predicate IsDecimal(s: seq<Byte>) {
    s != [] && forall i :: 0 <= i < |s| ==> IsNum(s[i])
  }

  function DecimalOf(s: seq<Byte>): nat
    requires forall i :: 0 <= i < |s| ==> IsNum(s[i])
  {
    if s == [] then 0 else DecimalOf(s[..|s| - 1]) * 10 + Digit(s[|s| - 1])
  }

  predicate ValidNumber(s: seq<Byte>) {
    IsDecimal(s) && DecimalOf(s) <= 999
  }

  predicate ValidStatusLine(l: StatusLine) {
    && ValidNumber(l.major) && ValidNumber(l.minor) && ValidNumber(l.code)
    && forall i :: 0 <= i < |l.reason| ==> l.reason[i] != CR && l.reason[i] != LF
  }

  function StatusLineText(l: StatusLine): seq<Byte> {
    "HTTP/" + (l.major + ("." + (l.minor + (" " + (l.code + (" " + (l.reason + CRLF)))))))
  }

  lemma {:induction false} DecimalPrefix(s: seq<Byte>, n: nat)
    requires n <= |s| && forall i :: 0 <= i < |s| ==> IsNum(s[i])
    ensures DecimalOf(s[..n]) <= DecimalOf(s)
    decreases |s|
  {
    if n < |s| {
      var u := s[..|s| - 1];
      DecimalPrefix(u, n);
      assert u[..n] == s[..n];
    } else {
      assert s[..n] == s;
    }
  }

  lemma DecimalSnoc(s: seq<Byte>, p: nat)
    requires p < |s| && forall i :: 0 <= i < |s| ==> IsNum(s[i])
    ensures DecimalOf(s[..p + 1]) == DecimalOf(s[..p]) * 10 + Digit(s[p])
  {
    assert s[..p + 1][..p] == s[..p];
  }

  /** The number that the state is reading. */
  function WithNumber(k: Core, n: nat): Core {
    match k.state
    case HttpMajor => k.(major := n)
    case HttpMinor => k.(minor := n)
    case _ => k.(status := n)
  }

  predicate InNumber(s: State) {
    s.HttpMajor? || s.HttpMinor? || s.StatusCode?
  }

  lemma NumberDigit(noBody: Core -> bool, k: Core, n: nat, ch: Byte)
    requires InNumber(k.state) && IsNum(ch) && n * 10 + Digit(ch) <= 999
    ensures Step(noBody, WithNumber(k, n), ch) == Go(WithNumber(k, n * 10 + Digit(ch)), k.state)
  {
    hide StepHeaderFieldStart, StepHeaderField, StepHeaderEnds, StepHeaderValue, StepChunkSize;
    hide StepHeadersAlmostDone, StepHeadersDone, StepBody;
  }

  lemma {:induction false} ReadDigits(noBody: Core -> bool, t: Trace, k: Core, s: seq<Byte>, p: nat)
    requires t.Going() && ValidNumber(s) && p <= |s| && InNumber(k.state) && t.core == WithNumber(k, DecimalOf(s[..p]))
    ensures Run(ParserStep(noBody), t, s, p) == t.(core := WithNumber(k, DecimalOf(s)), taken := t.taken + (|s| - p))
    decreases |s| - p
  {
    hide Run, Step, ParserStep;
    if p == |s| {
      assert s[..p] == s;
      RunEnds(ParserStep(noBody), t, s, p);
    } else {
      DecimalPrefix(s, p + 1);
      DecimalSnoc(s, p);
      NumberDigit(noBody, k, DecimalOf(s[..p]), s[p]);
      var k1 := WithNumber(k, DecimalOf(s[..p + 1]));
      ReadSilent(noBody, t, s, p, k1);
      ReadDigits(noBody, t.(core := k1, taken := t.taken + 1), k, s, p + 1);
    }
  }

  lemma FirstDigit(noBody: Core -> bool, k: Core, ch: Byte)
    requires IsNum(ch)
    ensures k.state == FirstHttpMajor ==> Step(noBody, k, ch) == Go(k.(major := Digit(ch)), HttpMajor)
    ensures k.state == FirstHttpMinor ==> Step(noBody, k, ch) == Go(k.(minor := Digit(ch)), HttpMinor)
    ensures k.state == FirstStatusCode ==> Step(noBody, k, ch) == Go(k.(status := Digit(ch)), StatusCode)
  {
    hide StepHeaderFieldStart, StepHeaderField, StepHeaderEnds, StepHeaderValue, StepChunkSize;
    hide StepHeadersAlmostDone, StepHeadersDone, StepBody;
  }

  /** The field after the first digit of a number. */
  lemma FirstNumber(k: Core, s: seq<Byte>, next: State)
    requires ValidNumber(s) && InNumber(next)
    ensures DecimalOf(s[..1]) == Digit(s[0])
    ensures var k1 := WithNumber(k.(state := next), Digit(s[0]));
            && k1.errno == k.errno && k1.state == next
            && k1 == if next == HttpMajor then k.(state := next, major := Digit(s[0]))
                     else if next == HttpMinor then k.(state := next, minor := Digit(s[0]))
                     else k.(state := next, status := Digit(s[0]))
  {
    assert s[..0] == [];
    DecimalSnoc(s, 0);
  }

  /** A number of the status line: the state after it, and the number read. */
  lemma ReadNumber(noBody: Core -> bool, t: Trace, s: seq<Byte>, next: State)
    requires t.Going() && ValidNumber(s)
    requires (t.core.state, next) == (FirstHttpMajor, HttpMajor) || (t.core.state, next) == (FirstHttpMinor, HttpMinor)
             || (t.core.state, next) == (FirstStatusCode, StatusCode)
    ensures Read(noBody, t, s) == t.(core := WithNumber(t.core.(state := next), DecimalOf(s)), taken := t.taken + |s|)
  {
    hide Run, Step, ParserStep, DecimalOf, WithNumber;
    FirstDigit(noBody, t.core, s[0]);
    FirstNumber(t.core, s, next);
    var k := t.core.(state := next);
    var k1 := WithNumber(k, DecimalOf(s[..1]));
    ReadSilent(noBody, t, s, 0, k1);
    ReadDigits(noBody, t.(core := k1, taken := t.taken + 1), k, s, 1);
  }

  lemma LetterSteps(noBody: Core -> bool, k: Core)
    ensures k.state == ResH ==> Step(noBody, k, 'T') == Go(k, ResHT)
    ensures k.state == ResHT ==> Step(noBody, k, 'T') == Go(k, ResHTT)
    ensures k.state == ResHTT ==> Step(noBody, k, 'P') == Go(k, ResHTTP)
    ensures k.state == ResHTTP ==> Step(noBody, k, '/') == Go(k, FirstHttpMajor)
    ensures k.state == HttpMajor ==> Step(noBody, k, '.') == Go(k, FirstHttpMinor)
    ensures k.state == HttpMinor ==> Step(noBody, k, ' ') == Go(k, FirstStatusCode)
    ensures k.state == StatusCode ==> Step(noBody, k, ' ') == Go(k, StatusStart)
  {
    hide StepHeaderFieldStart, StepHeaderField, StepHeaderEnds, StepHeaderValue, StepChunkSize;
    hide StepHeadersAlmostDone, StepHeadersDone, StepBody;
  }

  /** A byte that only goes to another state. */
  lemma ReadLetter(noBody: Core -> bool, t: Trace, c: Byte, s: State)
    requires t.Going() && Step(noBody, t.core, c) == Go(t.core, s)
    ensures Read(noBody, t, [c]) == t.(core := t.core.(state := s), taken := t.taken + 1)
  {
    hide Step, Run, ParserStep;
    ReadSilent(noBody, t, [c], 0, t.core.(state := s));
    RunEnds(ParserStep(noBody), t.(core := t.core.(state := s), taken := t.taken + 1), [c], 1);
  }

  /** The fields at the start of a message. */
  function Begun(k: Core): Core {
    k.(flags := NO_FLAGS, length := ULLONG_MAX)
  }

  lemma MessageStarts(noBody: Core -> bool, k: Core)
    requires k.state == StartRes
    ensures Step(noBody, k, 'H') == Out(Begun(k).(state := ResH), None, false, [MessageBegin], false, false)
  {
    hide StepHeaderFieldStart, StepHeaderField, StepHeaderEnds, StepHeaderValue, StepChunkSize;
    hide StepHeadersAlmostDone, StepHeadersDone, StepBody;
  }

  /** The rest of the protocol's name. */
  lemma ReadTtp(noBody: Core -> bool, t: Trace)
    requires t.Going() && t.core.state == ResH
    ensures Read(noBody, t, "TTP/") == t.(core := t.core.(state := FirstHttpMajor), taken := t.taken + 4)
  {
    hide Step, Run, ParserStep;
    var s, k := "TTP/", t.core;
    LetterSteps(noBody, k);
    LetterSteps(noBody, k.(state := ResHT));
    LetterSteps(noBody, k.(state := ResHTT));
    LetterSteps(noBody, k.(state := ResHTTP));
    ReadSilent(noBody, t, s, 0, k.(state := ResHT));
    ReadSilent(noBody, t.(core := k.(state := ResHT), taken := t.taken + 1), s, 1, k.(state := ResHTT));
    ReadSilent(noBody, t.(core := k.(state := ResHTT), taken := t.taken + 2), s, 2, k.(state := ResHTTP));
    ReadSilent(noBody, t.(core := k.(state := ResHTTP), taken := t.taken + 3), s, 3, k.(state := FirstHttpMajor));
    RunEnds(ParserStep(noBody), t.(core := k.(state := FirstHttpMajor), taken := t.taken + 4), s, 4);
  }

  lemma ReadHttp(noBody: Core -> bool, t: Trace)
    requires t.Going() && t.held == [] && t.core.state == StartRes
    ensures Read(noBody, t, "HTTP/")
            == t.(core := Begun(t.core).(state := FirstHttpMajor), log := t.log + [Notify(MessageBegin)],
                taken := t.taken + 5)
  {
    hide Step, Run, ParserStep;
    MessageStarts(noBody, t.core);
    var o := Out(Begun(t.core).(state := ResH), None, false, [MessageBegin], false, false);
    assert Notified([MessageBegin]) == [Notify(MessageBegin)];
    ReadOne(noBody, t, 'H', o);
    ReadTtp(noBody, After(t, 'H', o));
    ReadAppend(noBody, t, ['H'], "TTP/");
    assert ['H'] + "TTP/" == "HTTP/";
  }

  lemma ReasonSteps(noBody: Core -> bool, k: Core, ch: Byte)
    ensures k.state == StatusStart && ch != CR && ch != LF ==>
              Step(noBody, k, ch) == Keep(StatusText, Go(k.(index := 0, state := Status), Status))
    ensures k.state == Status && ch != CR && ch != LF ==> Step(noBody, k, ch) == Keep(StatusText, Go(k, Status))
    ensures k.state == StatusStart ==> Step(noBody, k, CR) == Go(k, LineAlmostDone)
    ensures k.state == Status ==> Step(noBody, k, CR) == Pass(Go(k, LineAlmostDone))
    ensures Step(noBody, k.(state := LineAlmostDone), LF) == Go(k, HeaderFieldStart)
  {
    hide StepHeaderFieldStart, StepHeaderField, StepHeaderEnds, StepHeaderValue, StepChunkSize;
    hide StepHeadersAlmostDone, StepHeadersDone, StepBody;
  }

  lemma {:induction false} ReadReasonRest(noBody: Core -> bool, t: Trace, s: seq<Byte>, p: nat)
    requires t.Going() && t.core.state == Status && p <= |s| && forall i :: 0 <= i < |s| ==> s[i] != CR && s[i] != LF
    ensures Run(ParserStep(noBody), t, s, p)
            == t.(held := t.held + DataOf(StatusText, s[p..]), taken := t.taken + (|s| - p))
    decreases |s| - p
  {
    hide Run, Step, ParserStep, DataOf;
    if p == |s| {
      DataNone(t.held, StatusText, s);
      RunEnds(ParserStep(noBody), t, s, p);
    } else {
      ReasonSteps(noBody, t.core, s[p]);
      ReadKept(noBody, t, s, p, StatusText, t.core);
      ReadReasonRest(noBody, t.(held := t.held + [Data(StatusText, s[p])], taken := t.taken + 1), s, p + 1);
      DataFrom(t.held, StatusText, s, p, |s|);
      assert s[p + 1..|s|] == s[p + 1..] && s[p..|s|] == s[p..];
    }
  }

  /** A reason phrase that is not empty. */
  lemma ReadReasonText(noBody: Core -> bool, t: Trace, s: seq<Byte>)
    requires t.Going() && t.held == [] && t.core.state == StatusStart && s != []
    requires forall i :: 0 <= i < |s| ==> s[i] != CR && s[i] != LF
    ensures Read(noBody, t, s)
            == t.(core := t.core.(index := 0, state := Status), held := DataOf(StatusText, s), taken := t.taken + |s|)
  {
    hide Run, Step, ParserStep, DataOf, Keep, Go;
    ReasonSteps(noBody, t.core, s[0]);
    var k1 := t.core.(index := 0, state := Status);
    ReadKept(noBody, t, s, 0, StatusText, k1);
    var t1 := t.(core := k1, held := t.held + [Data(StatusText, s[0])], taken := t.taken + 1);
    ReadReasonRest(noBody, t1, s, 1);
    DataHead(t.held, StatusText, s);
  }

  /** The reason phrase and the end of the status line. */
  lemma ReadReason(noBody: Core -> bool, t: Trace, s: seq<Byte>) returns (k: Core)
    requires t.Going() && t.held == [] && t.core.state == StatusStart
    requires forall i :: 0 <= i < |s| ==> s[i] != CR && s[i] != LF
    ensures k == t.core.(index := k.index, state := HeaderFieldStart)
    ensures Read(noBody, t, s + CRLF) == t.(core := k, log := t.log + DataOf(StatusText, s), taken := t.taken + |s| + 2)
  {
    hide Run, Step, ParserStep, DataOf;
    if s == [] {
      k := t.core.(state := HeaderFieldStart);
      assert s + CRLF == CRLF;
      DataNone(t.log, StatusText, s);
      assert s[|s|..] == s;
      ReasonSteps(noBody, t.core, CR);
      ReadCrLf(noBody, t, k.(state := LineAlmostDone), k);
    } else {
      ReadReasonText(noBody, t, s);
      var k1 := t.core.(index := 0, state := Status);
      k := k1.(state := HeaderFieldStart);
      ReasonSteps(noBody, k1, CR);
      ReadAppend(noBody, t, s, CRLF);
      ReadEndCrLf(noBody, Read(noBody, t, s), k1.(state := LineAlmostDone), k);
    }
  }

  /** The fields after a status line. */
  predicate StatusLineDone(k: Core, k': Core, l: StatusLine)
    requires ValidStatusLine(l)
  {
    && k' == k.(state := HeaderFieldStart, index := k'.index, flags := NO_FLAGS, length := ULLONG_MAX,
                major := DecimalOf(l.major), minor := DecimalOf(l.minor), status := DecimalOf(l.code))
  }

  lemma StatusLinePieces(noBody: Core -> bool, t: Trace, l: StatusLine)
    ensures Read(noBody, t, StatusLineText(l))
            == Read(noBody, Read(noBody, Read(noBody, Read(noBody,
                 Read(noBody, Read(noBody, Read(noBody, Read(noBody, t,
                 "HTTP/"), l.major), "."), l.minor), " "), l.code), " "), l.reason + CRLF)
    ensures |StatusLineText(l)| == 5 + |l.major| + 1 + |l.minor| + 1 + |l.code| + 1 + |l.reason| + 2
  {
    hide Run;
    var s7 := " " + (l.reason + CRLF);
    var s6 := l.code + s7;
    var s5 := " " + s6;
    var s4 := l.minor + s5;
    var s3 := "." + s4;
    var s2 := l.major + s3;
    var t1 := Read(noBody, t, "HTTP/");
    var t2 := Read(noBody, t1, l.major);
    var t3 := Read(noBody, t2, ".");
    var t4 := Read(noBody, t3, l.minor);
    var t5 := Read(noBody, t4, " ");
    var t6 := Read(noBody, t5, l.code);
    ReadAppend(noBody, t, "HTTP/", s2);
    ReadAppend(noBody, t1, l.major, s3);
    ReadAppend(noBody, t2, ".", s4);
    ReadAppend(noBody, t3, l.minor, s5);
    ReadAppend(noBody, t4, " ", s6);
    ReadAppend(noBody, t5, l.code, s7);
    ReadAppend(noBody, t6, " ", l.reason + CRLF);
  }

  lemma ReadVersion(noBody: Core -> bool, t: Trace, l: StatusLine)
    requires t.Going() && t.held == [] && t.core.state == StartRes && ValidStatusLine(l)
    ensures Read(noBody, Read(noBody, Read(noBody, Read(noBody, t, "HTTP/"), l.major), "."), l.minor)
            == t.(core := Begun(t.core).(major := DecimalOf(l.major), minor := DecimalOf(l.minor), state := HttpMinor),
                  log := t.log + [Notify(MessageBegin)], taken := t.taken + 5 + |l.major| + 1 + |l.minor|)
  {
    hide Run, Step, ParserStep, ValidNumber, DecimalOf;
    ReadHttp(noBody, t);
    var t1 := Read(noBody, t, "HTTP/");
    ReadNumber(noBody, t1, l.major, HttpMajor);
    var t2 := Read(noBody, t1, l.major);
    LetterSteps(noBody, t2.core);
    ReadLetter(noBody, t2, '.', FirstHttpMinor);
    var t3 := Read(noBody, t2, ".");
    ReadNumber(noBody, t3, l.minor, HttpMinor);
  }

  /** A status line starts a message, and its numbers are read. */
  lemma ReadStatusLine(noBody: Core -> bool, t: Trace, l: StatusLine)
    requires t.Going() && t.held == [] && t.core.state == StartRes && ValidStatusLine(l)
    ensures var t' := Read(noBody, t, StatusLineText(l));
            && t' == t.(core := t'.core, log := t.log + [Notify(MessageBegin)] + DataOf(StatusText, l.reason),
                        taken := t.taken + |StatusLineText(l)|)
            && StatusLineDone(t.core, t'.core, l)
  {
    hide Run, Step, ParserStep, ValidNumber, DecimalOf;
    StatusLinePieces(noBody, t, l);
    ReadVersion(noBody, t, l);
    var t4 := Read(noBody, Read(noBody, Read(noBody, Read(noBody, t, "HTTP/"), l.major), "."), l.minor);
    LetterSteps(noBody, t4.core);
    ReadLetter(noBody, t4, ' ', FirstStatusCode);
    var t5 := Read(noBody, t4, " ");
    ReadNumber(noBody, t5, l.code, StatusCode);
    var t6 := Read(noBody, t5, l.code);
    LetterSteps(noBody, t6.core);
    ReadLetter(noBody, t6, ' ', StatusStart);
    var t7 := Read(noBody, t6, " ");
    var k := ReadReason(noBody, t7, l.reason);
  }

  // The header as a whole

  datatype Head = Head(status: StatusLine, lines: seq<Line>)

  predicate ValidHead(h: Head) {
    ValidStatusLine(h.status) && ValidLines(h.lines)
  }

  function HeadText(h: Head): seq<Byte> {
    StatusLineText(h.status) + (LinesText(h.lines) + CRLF)
  }

  function HeadSeen(h: Head): seq<Seen>
    requires ValidHead(h)
  {
    [Notify(MessageBegin)] + DataOf(StatusText, h.status.reason) + LinesSeen(h.lines)
    + [Notify(HeadersComplete(DecimalOf(h.status.code)))]
  }

  /** The response offers another protocol, and a Connection line says so. */
  predicate Upgrades(h: Head) {
    OffersUpgrade(h.lines) && ListsWord(h.lines, ConnectionUpgrade)
  }

  /** Responses that never have a body */
  predicate Bodiless(code: nat) {
    100 <= code < 200 || code == 204 || code == 304
  }

  /**
   * How the parser finds the end of a body: `skip` is what on_headers_complete answers, as it should
   * for the response to HEAD. Upgraded is a response after which the parser leaves the connection
   * at once, although its body would last until the connection ends.
   */
  datatype Framing = Chunks | Sized(length: nat) | UntilClose | NoBody | Upgraded

  function FramingOf(h: Head, skip: bool): Framing
    requires ValidHead(h)
  {
    var length := SaysLength(ULLONG_MAX, h.lines);
    if skip then NoBody
    else if SaysChunked(h.lines) then Chunks
    else if length == 0 then NoBody
    else if length < ULLONG_MAX then Sized(length)
    else if Bodiless(DecimalOf(h.status.code)) then NoBody
    else if Upgrades(h) then Upgraded
    else UntilClose
  }

  /** Whether the connection is kept after a response with this header, and perhaps a trailer. */
  predicate Kept(h: Head, trailer: seq<Line>)
    requires ValidHead(h)
  {
    Persists(DecimalOf(h.status.major), DecimalOf(h.status.minor),
             ListsWord(h.lines, KeepAlive) || ListsWord(trailer, KeepAlive),
             ListsWord(h.lines, Close) || ListsWord(trailer, Close))
  }

  /** The fields that a header leaves for the end of the message. */
  predicate HeadFields(k: Core, h: Head)
    requires ValidHead(h)
  {
    && k.major == DecimalOf(h.status.major) && k.minor == DecimalOf(h.status.minor)
    && k.flags.keepAlive == ListsWord(h.lines, KeepAlive) && k.flags.close == ListsWord(h.lines, Close)
    && k.flags.chunked == SaysChunked(h.lines) && k.upgrade == Upgrades(h)
  }

  /** Where the parser is after a header with this framing. */
  predicate Framed(t: Trace, f: Framing, h: Head)
    requires ValidHead(h)
  {
    match f
    case Chunks => t.Going() && t.held == [] && t.core.state == ChunkSizeStart && HeadFields(t.core, h)
        && t.core.flags.chunked
    case Sized(n) =>
      && t.Going() && t.held == [] && t.core.state == BodyIdentity && HeadFields(t.core, h)
      && t.core.length == n && 0 < n < ULLONG_MAX
    case UntilClose => t.Going() && t.held == [] && t.core.state == BodyIdentityEof
    case NoBody => MessageOver(t, Kept(h, [])) && t.exited == Upgrades(h)
    case Upgraded => MessageOver(t, false) && t.exited
  }

  lemma {:induction false} LengthSaid(length: nat, lines: seq<Line>)
    requires ValidLines(lines) && length <= ULLONG_MAX
    ensures SaysLength(length, lines) <= ULLONG_MAX
    decreases |lines|
  {
    if lines != [] {
      var l := lines[0];
      LengthSaid(if IsLength(l) && l.value != [] then NumberOf(l.value) else length, lines[1..]);
    }
  }

  /** The fields before the last line feed of a header. */
  predicate BeforeEnd(k: Core, h: Head)
    requires ValidHead(h)
  {
    && k.state == HeadersAlmostDone && k.errno == OK && k.status == DecimalOf(h.status.code)
    && HeadFields(k.(upgrade := Upgrades(h)), h)
    && k.flags.upgrade == OffersUpgrade(h.lines) && k.flags.connectionUpgrade == ListsWord(h.lines, ConnectionUpgrade)
    && !k.flags.trailing && !k.flags.skipBody && k.length == SaysLength(ULLONG_MAX, h.lines) <= ULLONG_MAX
  }

  /** The framing ends the message with its header. */
  predicate AtOnce(f: Framing) {
    f.NoBody? || f.Upgraded?
  }

  /** The last line feed of a header. */
  lemma HeaderEnds(noBody: Core -> bool, k: Core, h: Head, skip: bool) returns (o: Out)
    requires ValidHead(h) && BeforeEnd(k, h) && forall k': Core :: noBody(k') == skip
    ensures o == StepHeadersAlmostDone(noBody, k, LF)
    ensures o.kind == None && !o.flush && o.core.errno == OK && o.core.upgrade == Upgrades(h)
    ensures var f := FramingOf(h, skip);
            && o.notes == [HeadersComplete(k.status)] + (if AtOnce(f) then [MessageComplete] else [])
            && o.exit == (AtOnce(f) && Upgrades(h))
            && (!AtOnce(f) ==> o.core.length == k.length && HeadFields(o.core, h))
            && o.core.state == match f
                               case Chunks => ChunkSizeStart
                               case Sized(_) => BodyIdentity
                               case UntilClose => BodyIdentityEof
                               case NoBody => if Kept(h, []) then StartRes else Dead
                               case Upgraded => Dead
  {
    hide NewMessage, Persists, ListsWord, SaysChunked, OffersUpgrade, SaysLength, DecimalOf;
    var k1 := k.(state := HeadersDone, upgrade := k.flags.upgrade && k.flags.connectionUpgrade);
    var k2 := if skip then k1.(flags := k1.flags.(skipBody := true)) else k1;
    assert noBody(k1) == skip;
    o := StepHeadersAlmostDone(noBody, k, LF);
    var done := StepHeadersDone(k2, LF);
    assert o == Told(HeadersComplete(k.status), done);
    BodilessCode(k.status);
    NoneTrailed(h);
    if FramingOf(h, skip).Upgraded? {
      NotKept(k2);
    } else if AtOnce(FramingOf(h, skip)) {
      NextState(k2);
    }
  }

  lemma BodilessCode(code: nat)
    ensures Bodiless(code) <==> code / 100 == 1 || code == 204 || code == 304
  {}

  lemma NoneTrailed(h: Head)
    requires ValidHead(h)
    ensures !ListsWord([], KeepAlive) && !ListsWord([], Close)
  {}

  lemma NotKept(k: Core)
    requires NeedsEof(k)
    ensures NewMessage(k) == Dead
  {}

  /** The header up to its empty line. */
  lemma ReadHeadLines(noBody: Core -> bool, t: Trace, h: Head)
    requires t.Going() && t.held == [] && t.core.state == StartRes && ValidHead(h)
    ensures var s := StatusLineText(h.status) + LinesText(h.lines);
            var t' := Read(noBody, t, s);
            && BetweenLines(t') && t'.taken == t.taken + |s|
            && t'.log == t.log + [Notify(MessageBegin)] + DataOf(StatusText, h.status.reason) + LinesSeen(h.lines)
            && BeforeEnd(LineStart(t'.core).(state := HeadersAlmostDone), h)
  {
    hide Run, Step, ParserStep, ValidLine, ValidStatusLine, FramingOf, DecimalOf, LineStart, ListsWord, Kept, Upgrades;
    ReadStatusLine(noBody, t, h.status);
    var t1 := Read(noBody, t, StatusLineText(h.status));
    StatusLineFields(t.core, t1.core, h.status);
    AtLineStart(t1.core);
    ReadLines(noBody, t1, h.lines);
    var t2 := Read(noBody, t1, LinesText(h.lines));
    LengthSaid(ULLONG_MAX, h.lines);
    LinesLeave(t1.core, LineStart(t2.core), h);
    ReadAppend(noBody, t, StatusLineText(h.status), LinesText(h.lines));
  }

  /**
   * A header is told as its lines and headers_complete, and then the body is read as the framing
   * says. Where there is none, the response is complete at once, and the parser leaves exactly if the response
   * upgrades.
   */
  lemma ReadHead(noBody: Core -> bool, t: Trace, h: Head, skip: bool)
    requires t.Going() && t.held == [] && t.core.state == StartRes && ValidHead(h)
    requires forall k: Core :: noBody(k) == skip
    ensures var t', f := Read(noBody, t, HeadText(h)), FramingOf(h, skip);
            && Framed(t', f, h) && t'.taken == t.taken + |HeadText(h)|
            && t'.log == t.log + HeadSeen(h) + (if AtOnce(f) then [Notify(MessageComplete)] else [])
  {
    hide Run, Step, ParserStep, StepHeadersAlmostDone, ValidHead, FramingOf, DecimalOf, LineStart, Kept, Upgrades;
    hide HeadSeen;
    hide LinesText, StatusLineText, LinesSeen, DataOf, BeforeEnd, HeadFields;
    ReadHeadLines(noBody, t, h);
    var s := StatusLineText(h.status) + LinesText(h.lines);
    var t1 := Read(noBody, t, s);
    LineStartOk(t1.core);
    var k := LineStart(t1.core).(state := HeadersAlmostDone);
    var o := HeaderEnds(noBody, k, h, skip);
    ReadEmptyLine(noBody, t1, o);
    assert HeadText(h) == s + CRLF;
    ReadAppend(noBody, t, s, CRLF);
    EndFields(k, o.core, h);
    HeadNotes(h, t.log, o.notes, AtOnce(FramingOf(h, skip)));
    FramingLength(h, skip);
  }

  lemma EndFields(k: Core, k': Core, h: Head)
    requires ValidHead(h) && BeforeEnd(k, h)
    ensures k.status == DecimalOf(h.status.code) && k.length == SaysLength(ULLONG_MAX, h.lines)
    ensures HeadFields(k', h) ==> k'.flags.chunked == SaysChunked(h.lines)
  {}

  lemma LinesLeave(k: Core, k': Core, h: Head)
    requires ValidHead(h) && k.flags == NO_FLAGS && k.length == ULLONG_MAX
    requires k.major == DecimalOf(h.status.major) && k.minor == DecimalOf(h.status.minor)
             && k.status == DecimalOf(h.status.code)
    requires LinesDone(k, k', h.lines) && SaysLength(ULLONG_MAX, h.lines) <= ULLONG_MAX
    ensures BeforeEnd(k'.(state := HeadersAlmostDone), h)
  {
    hide DecimalOf, ListsWord, SaysChunked, OffersUpgrade, SaysLength, ValidLine;
  }

  lemma StatusLineFields(k: Core, k': Core, l: StatusLine)
    requires ValidStatusLine(l) && StatusLineDone(k, k', l)
    ensures k'.state == HeaderFieldStart && k'.flags == NO_FLAGS && k'.length == ULLONG_MAX && k'.errno == k.errno
    ensures k'.major == DecimalOf(l.major) && k'.minor == DecimalOf(l.minor) && k'.status == DecimalOf(l.code)
  {}

  lemma FramingLength(h: Head, skip: bool)
    requires ValidHead(h)
    ensures FramingOf(h, skip).Sized? ==> 0 < FramingOf(h, skip).length == SaysLength(ULLONG_MAX, h.lines) < ULLONG_MAX
    ensures FramingOf(h, skip).Chunks? <==> !skip && SaysChunked(h.lines)
    ensures FramingOf(h, skip).Upgraded? ==> Upgrades(h)
  {}

  lemma HeadNotes(h: Head, log: seq<Seen>, notes: seq<Note>, atOnce: bool)
    requires ValidHead(h)
    requires notes == [HeadersComplete(DecimalOf(h.status.code))] + (if atOnce then [MessageComplete] else [])
    ensures log + [Notify(MessageBegin)] + DataOf(StatusText, h.status.reason) + LinesSeen(h.lines) + Notified(notes)
            == log + HeadSeen(h) + (if atOnce then [Notify(MessageComplete)] else [])
  {
    hide DecimalOf;
    var first := [Notify(HeadersComplete(DecimalOf(h.status.code)))];
    var last := if atOnce then [Notify(MessageComplete)] else [];
    assert Notified(notes) == first + last;
    var a, b, c := [Notify(MessageBegin)], DataOf(StatusText, h.status.reason), LinesSeen(h.lines);
    assert HeadSeen(h) == a + b + c + first;
    NotesInOrder(log, a, b, c, first, last);
    assert log + a + b + c + Notified(notes) == log + HeadSeen(h) + last;
  }

  lemma NotesInOrder(log: seq<Seen>, a: seq<Seen>, b: seq<Seen>, c: seq<Seen>, d: seq<Seen>, e: seq<Seen>)
    ensures log + a + b + c + (d + e) == log + (a + b + c + d) + e
  {}

  // Whole responses

  /** A response that is complete with its header, as every one is for a callback that answers 1. */
  lemma BodilessResponse(noBody: Core -> bool, t: Trace, h: Head, skip: bool)
    requires t.Going() && t.held == [] && t.core.state == StartRes && forall k: Core :: noBody(k) == skip
    requires ValidHead(h) && FramingOf(h, skip) == NoBody
    ensures var t' := Read(noBody, t, HeadText(h));
            && t'.log == t.log + HeadSeen(h) + [Notify(MessageComplete)] && MessageOver(t', Kept(h, []))
            && t'.exited == Upgrades(h) && t'.taken == t.taken + |HeadText(h)|
  {
    hide Run, Step, ParserStep, ValidHead, HeadSeen, HeadText, FramingOf, Kept, Upgrades;
    ReadHead(noBody, t, h, skip);
  }

  /** A response that would last until the connection ends: with an upgrade the parser leaves it, whatever follows. */
  lemma LeftResponse(noBody: Core -> bool, t: Trace, h: Head, rest: seq<Byte>)
    requires t.Going() && t.held == [] && t.core.state == StartRes && forall k: Core :: noBody(k) == false
    requires ValidHead(h) && FramingOf(h, false) == Upgraded
    ensures var t' := Read(noBody, t, HeadText(h) + rest);
            && t'.log == t.log + HeadSeen(h) + [Notify(MessageComplete)] && MessageOver(t', false)
            && t'.exited && t'.taken == t.taken + |HeadText(h)|
  {
    hide Run, Step, ParserStep, ValidHead, HeadSeen, HeadText, FramingOf, Kept, Upgrades;
    ReadHead(noBody, t, h, false);
    ReadAppend(noBody, t, HeadText(h), rest);
    RunEnds(ParserStep(noBody), Read(noBody, t, HeadText(h)), rest, 0);
  }

  /** A chunked response, whatever its Content-Length says. */
  lemma ChunkedResponse(noBody: Core -> bool, t: Trace, h: Head, b: ChunkedBody)
    requires t.Going() && t.held == [] && t.core.state == StartRes && forall k: Core :: noBody(k) == false
    requires ValidHead(h) && SaysChunked(h.lines) && ValidBody(b)
    ensures var t' := Read(noBody, t, HeadText(h) + BodyText(b));
            && t'.log == t.log + HeadSeen(h) + BodySeen(b) && MessageOver(t', Kept(h, b.trailer))
            && t'.exited == Upgrades(h) && t'.taken == t.taken + |HeadText(h) + BodyText(b)|
  {
    hide Run, Step, ParserStep, ValidHead, ValidBody, HeadSeen, BodySeen, HeadText, BodyText, MessageOver, Upgrades;
    hide FramingOf, ListsWord;
    ReadHead(noBody, t, h, false);
    var t1 := Read(noBody, t, HeadText(h));
    FramingLength(h, false);
    assert t1.log + [] == t1.log && t1.log == t.log + HeadSeen(h);
    ReadChunkedBody(noBody, t1, b);
    ReadAppend(noBody, t, HeadText(h), BodyText(b));
  }

  /** A response with a Content-Length: its body is delivered, and it is complete with its last byte. */
  lemma SizedResponse(noBody: Core -> bool, t: Trace, h: Head, body: seq<Byte>)
    requires t.Going() && t.held == [] && t.core.state == StartRes && forall k: Core :: noBody(k) == false
    requires ValidHead(h) && FramingOf(h, false) == Sized(|body|)
    ensures var t' := Read(noBody, t, HeadText(h) + body);
            && t'.log == t.log + HeadSeen(h) + DataOf(Body, body) + [Notify(MessageComplete)]
               && MessageOver(t', Kept(h, []))
            && t'.exited == Upgrades(h) && t'.taken == t.taken + |HeadText(h) + body|
  {
    hide Run, Step, ParserStep, ValidHead, HeadSeen, HeadText, MessageOver, FramingOf, Upgrades, Kept;
    ReadHead(noBody, t, h, false);
    var t1 := Read(noBody, t, HeadText(h));
    assert t1.log == t.log + HeadSeen(h);
    ReadSizedBody(noBody, t1, body, h);
    ReadAppend(noBody, t, HeadText(h), body);
  }

  lemma ReadSizedBody(noBody: Core -> bool, t: Trace, body: seq<Byte>, h: Head)
    requires ValidHead(h) && Framed(t, Sized(|body|), h)
    ensures var t' := Read(noBody, t, body);
            && t'.log == t.log + DataOf(Body, body) + [Notify(MessageComplete)] && MessageOver(t', Kept(h, []))
            && t'.exited == Upgrades(h) && t'.taken == t.taken + |body|
  {
    hide Run, Step, ParserStep, NewMessage, Kept, Upgrades, ListsWord, DecimalOf, DataOf;
    var q := |body| - 1;
    var k1 := t.core.(length := 1);
    ReadButLast(noBody, t, body);
    var t1 := t.(core := k1, held := DataOf(Body, body[..q]), taken := t.taken + q);
    var o := LastBodyByte(noBody, k1, body[q], h);
    ReadByte(noBody, t1, body, q, o);
    RunEnds(ParserStep(noBody), After(t1, body[q], o), body, |body|);
    DataLast(Body, body);
    assert Notified([MessageComplete]) == [Notify(MessageComplete)];
  }

  lemma LastBodyByte(noBody: Core -> bool, k: Core, ch: Byte, h: Head) returns (o: Out)
    requires ValidHead(h) && k.state == BodyIdentity && k.length == 1 && k.errno == OK && HeadFields(k, h)
    ensures o == Step(noBody, k, ch) && o.kind == Some(Body) && o.flush && o.notes == [MessageComplete]
    ensures o.exit == Upgrades(h)
    ensures o.core.errno == OK && o.core.state == if Kept(h, []) then StartRes else Dead
  {
    hide NewMessage, ListsWord, Persists, DecimalOf;
    o := Step(noBody, k, ch);
    NextState(k.(length := 0, state := MessageDone));
    NoneTrailed(h);
  }

  lemma ReadToClose(noBody: Core -> bool, t: Trace, body: seq<Byte>)
    requires t.Going() && t.held == [] && t.core.state == BodyIdentityEof
    ensures Read(noBody, t, body) == t.(held := DataOf(Body, body), taken := t.taken + |body|)
  {
    hide Run, Step, ParserStep;
    HttpExecute.ParserTakesBytes(noBody);
    HttpExecute.Skip(ParserStep(noBody), t, Body, body, 0, |body|, t.core);
    var t2 := t.(held := t.held + DataOf(Body, body[0..|body|]), taken := t.taken + |body|);
    RunEnds(ParserStep(noBody), t2, body, |body|);
    assert t2.held == DataOf(Body, body);
  }

  /** A response that ends with the connection: its body is all there is, and the end completes it. */
  lemma ResponseUntilClose(noBody: Core -> bool, t: Trace, h: Head, body: seq<Byte>)
    requires t.Going() && t.held == [] && t.core.state == StartRes && forall k: Core :: noBody(k) == false
    requires ValidHead(h) && FramingOf(h, false) == UntilClose
    ensures var t' := Call(ParserStep(noBody), Call(ParserStep(noBody), t, HeadText(h) + body), []);
            && t'.log == t.log + HeadSeen(h) + DataOf(Body, body) + [Notify(MessageComplete)] && t'.core.errno == OK
            && !t'.exited
  {
    hide Run, Step, ParserStep, ValidHead, HeadSeen, FramingOf, HeadText;
    HeadNotEmpty(h);
    ReadHead(noBody, t, h, false);
    var t1 := Read(noBody, t, HeadText(h));
    assert t1.log == t.log + HeadSeen(h);
    ReadAppend(noBody, t, HeadText(h), body);
    ReadToClose(noBody, t1, body);
    assert t.(held := [], exited := false) == t;
  }

  lemma HeadNotEmpty(h: Head)
    ensures HeadText(h) != []
  {}

  // Line ends before a status line

  lemma LineEndBefore(noBody: Core -> bool, k: Core, ch: Byte)
    requires k.state == StartRes && (ch == CR || ch == LF)
    ensures Step(noBody, k, ch) == Out(Begun(k), None, false, [MessageBegin], false, false)
  {
    hide StepHeaderFieldStart, StepHeaderField, StepHeaderEnds, StepHeaderValue, StepChunkSize;
    hide StepHeadersAlmostDone, StepHeadersDone, StepBody;
  }

  /** Every CR and LF before a status line is told as the beginning of a message. */
  lemma {:induction false} LineEndsBefore(noBody: Core -> bool, t: Trace, s: seq<Byte>, p: nat)
    requires t.Going() && t.held == [] && t.core.state == StartRes && p <= |s|
    requires forall i :: 0 <= i < |s| ==> s[i] == CR || s[i] == LF
    ensures Run(ParserStep(noBody), t, s, p)
            == t.(core := if p < |s| then Begun(t.core) else t.core,
                  log := t.log + seq(|s| - p, i => Notify(MessageBegin)),
                  taken := t.taken + (|s| - p))
    decreases |s| - p
  {
    hide Run, Step, ParserStep;
    if p == |s| {
      RunEnds(ParserStep(noBody), t, s, p);
      assert t.log + seq(|s| - p, i => Notify(MessageBegin)) == t.log;
    } else {
      LineEndBefore(noBody, t.core, s[p]);
      var o := Out(Begun(t.core), None, false, [MessageBegin], false, false);
      ReadByte(noBody, t, s, p, o);
      assert Notified([MessageBegin]) == [Notify(MessageBegin)];
      var t1 := t.(core := Begun(t.core), log := t.log + [Notify(MessageBegin)], taken := t.taken + 1);
      LineEndsBefore(noBody, t1, s, p + 1);
      assert t1.log + seq(|s| - p - 1, i => Notify(MessageBegin)) == t.log + seq(|s| - p, i => Notify(MessageBegin));
    }
  }

  // A cut that the callbacks notice

  lemma NotAToken(noBody: Core -> bool, k: Core)
    requires k.state == HeaderField
    ensures Step(noBody, k, '(') == Fail(k, InvalidHeaderToken)
  {}

  /**
   * A stream that is refused inside a header name: cut inside the name, its beginning has been
   * delivered when the parser comes to the error; in one piece, it never is.
   */
  lemma CutNoticed(noBody: Core -> bool, t: Trace, l: StatusLine)
    requires t.Going() && t.held == [] && t.core.state == StartRes && ValidStatusLine(l)
    ensures var step, a, b := ParserStep(noBody), StatusLineText(l) + "a", "(";
            var whole, cut := Call(step, t, a + b), Call(step, Call(step, t, a), b);
            whole.core.errno == InvalidHeaderToken && cut.log == whole.log + [Data(FieldName, 'a')]
  {
    hide Run, Step, ValidStatusLine, StatusLineText, FieldChar, NameRead, LineStart;
    var step, a, b := ParserStep(noBody), StatusLineText(l) + "a", "(";
    ReadStatusLine(noBody, t, l);
    var t1 := Read(noBody, t, StatusLineText(l));
    ReadAppend(noBody, t, StatusLineText(l), "a");
    LineStartOk(t1.core);
    var k := LineStarts(noBody, t1.core, 'a');
    ReadKept(noBody, t1, "a", 0, FieldName, k);
    var t2 := t1.(core := k, held := [Data(FieldName, 'a')], taken := t1.taken + 1);
    assert t1.held + [Data(FieldName, 'a')] == t2.held;
    RunEnds(step, t2, "a", 1);
    assert t.(held := [], exited := false) == t;
    CutAnywhere(noBody, t, a, b);
    RunAppend(step, t, a, b, 0);
    NotAToken(noBody, k);
    ReadByte(noBody, t2, b, 0, Fail(k, InvalidHeaderToken));
    RunEnds(step, After(t2, '(', Fail(k, InvalidHeaderToken)), b, 1);
  }
}
