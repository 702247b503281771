/** Whole messages: what the callbacks see of a valid header and a valid body. */
module HttpMessages {
  import opened Alphabets
  import opened Bytes
  import opened HttpChars
  import opened HttpParser
  import opened HttpRuns
  import opened HttpLists
  import opened HttpNames
  import HttpExecute

  const CRLF: seq<Byte> := [CR, LF]

  /** A run from the start of s to its end. */
  function Read(noBody: Core -> bool, t: Trace, s: seq<Byte>): Trace {
    Run(ParserStep(noBody), t, s, 0)
  }

  lemma ReadAppend(noBody: Core -> bool, t: Trace, a: seq<Byte>, b: seq<Byte>)
    ensures Read(noBody, t, a + b) == Read(noBody, Read(noBody, t, a), b)
  {
    RunAppend(ParserStep(noBody), t, a, b, 0);
  }

  lemma ReadByte(noBody: Core -> bool, t: Trace, s: seq<Byte>, p: nat, o: Out)
    requires p < |s| && t.Going() && o == Step(noBody, t.core, s[p])
    ensures Run(ParserStep(noBody), t, s, p) == Run(ParserStep(noBody), After(t, s[p], o), s, p + 1)
  {
    hide Step;
    RunByte(ParserStep(noBody), t, s, p, o);
  }

  /** The run over a single byte. */
  lemma ReadOne(noBody: Core -> bool, t: Trace, ch: Byte, o: Out)
    requires t.Going() && o == Step(noBody, t.core, ch)
    ensures Read(noBody, t, [ch]) == After(t, ch, o)
  {
    hide Step, Run, ParserStep, After;
    ReadByte(noBody, t, [ch], 0, o);
    RunEnds(ParserStep(noBody), After(t, ch, o), [ch], 1);
  }

  /** A byte that is only taken into data. */
  lemma ReadKept(noBody: Core -> bool, t: Trace, s: seq<Byte>, p: nat, kind: Kind, k: Core)
    requires p < |s| && t.Going() && Step(noBody, t.core, s[p]) == Keep(kind, Go(k, k.state)) && k.errno == OK
    ensures Run(ParserStep(noBody), t, s, p)
            == Run(ParserStep(noBody), t.(core := k, held := t.held + [Data(kind, s[p])], taken := t.taken + 1),
                   s, p + 1)
  {
    hide Step, Run, ParserStep;
    ReadByte(noBody, t, s, p, Keep(kind, Go(k, k.state)));
    TakenOne(t, k, kind, s[p]);
  }

  /** A byte that only changes the fields. */
  lemma ReadSilent(noBody: Core -> bool, t: Trace, s: seq<Byte>, p: nat, k: Core)
    requires p < |s| && t.Going() && Step(noBody, t.core, s[p]) == Go(k, k.state) && k.errno == OK
    ensures Run(ParserStep(noBody), t, s, p) == Run(ParserStep(noBody), t.(core := k, taken := t.taken + 1), s, p + 1)
  {
    hide Step, Run, ParserStep;
    assert t.log + Notified([]) == t.log;
    ReadByte(noBody, t, s, p, Go(k, k.state));
  }

  /** CRLF, silently. */
  lemma ReadCrLf(noBody: Core -> bool, t: Trace, k1: Core, k2: Core)
    requires t.Going() && Step(noBody, t.core, CR) == Go(k1, k1.state) && k1.errno == OK
    requires Step(noBody, k1, LF) == Go(k2, k2.state) && k2.errno == OK
    ensures Read(noBody, t, CRLF) == t.(core := k2, taken := t.taken + 2)
  {
    hide Step, Run, ParserStep;
    ReadSilent(noBody, t, CRLF, 0, k1);
    ReadSilent(noBody, t.(core := k1, taken := t.taken + 1), CRLF, 1, k2);
    RunEnds(ParserStep(noBody), t.(core := k2, taken := t.taken + 2), CRLF, 2);
  }

  /** CRLF at the end of data. */
  lemma ReadEndCrLf(noBody: Core -> bool, t: Trace, k1: Core, k2: Core)
    requires t.Going() && Step(noBody, t.core, CR) == Pass(Go(k1, k1.state)) && k1.errno == OK
    requires Step(noBody, k1, LF) == Go(k2, k2.state) && k2.errno == OK
    ensures Read(noBody, t, CRLF) == t.(core := k2, log := t.log + t.held, held := [], taken := t.taken + 2)
  {
    hide Step, Run, ParserStep;
    ReadByte(noBody, t, CRLF, 0, Pass(Go(k1, k1.state)));
    var t1 := t.(core := k1, log := t.log + t.held, held := [], taken := t.taken + 1);
    assert t1.log + Notified([]) == t1.log;
    ReadSilent(noBody, t1, CRLF, 1, k2);
    RunEnds(ParserStep(noBody), t1.(core := k2, taken := t.taken + 2), CRLF, 2);
  }

  // Header lines

  /** name: pad value */
  datatype Line = Line(name: seq<Byte>, pad: seq<Byte>, value: seq<Byte>)

  predicate IsBlank(c: Byte) {
    c == ' ' || c == '\t'
  }

  predicate ValidLine(l: Line) {
    && l.name != [] && Tokens(l.name)
    && (forall i :: 0 <= i < |l.pad| ==> IsBlank(l.pad[i]))
    && (forall i :: 0 <= i < |l.value| ==> l.value[i] != CR && l.value[i] != LF)
    && (l.value != [] ==> !IsBlank(l.value[0]))
    && (IsLength(l) && l.value != [] ==> IsNumber(l.value) && NumberOf(l.value) < LENGTH_LIMIT)
  }

  predicate IsLength(l: Line) {
    LowerName(l.name) == NContentLength.Text()
  }

  /** Transfer-Encoding: chunked */
  predicate IsChunkedLine(l: Line) {
    LowerName(l.name) == NTransferEncoding.Text() && IsChunked(l.value)
  }

  /** Upgrade: something */
  predicate IsUpgradeLine(l: Line) {
    LowerName(l.name) == NUpgrade.Text() && l.value != []
  }

  /** A word that a Connection or Proxy-Connection line is taken to list. */
  predicate Lists(l: Line, t: Token) {
    IsConnection(LowerName(l.name)) && l.value != [] && Takes(Split(l.value), t)
  }

  function LineText(l: Line): seq<Byte> {
    l.name + ([':'] + (l.pad + (l.value + CRLF)))
  }

  function LineSeen(l: Line): seq<Seen> {
    DataOf(FieldName, l.name) + DataOf(FieldValue, l.value)
  }

  /** Between lines, with nothing held: the next byte starts a line, unless it continues a value. */
  predicate BetweenLines(t: Trace) {
    && t.Going() && t.held == []
    && (t.core.state == HeaderFieldStart || t.core.state == HeaderValueLws || t.core.state == DiscardLws)
  }

  /** The fields with which the next line starts. */
  function LineStart(k: Core): Core {
    if k.state == HeaderFieldStart then k else Finished(k).(state := HeaderFieldStart)
  }

  /** The flags that header lines set. */
  predicate FlagsSet(f0: Flags, f: Flags, chunked: bool, upgrade: bool, keepAlive: bool, close: bool,
                     connectionUpgrade: bool) {
    f == f0.(chunked := f0.chunked || chunked, upgrade := f0.upgrade || upgrade, keepAlive := f0.keepAlive || keepAlive,
             close := f0.close || close, connectionUpgrade := f0.connectionUpgrade || connectionUpgrade)
  }

  /** What a line changes. */
  predicate LineDone(k: Core, k': Core, l: Line) {
    && k' == k.(header := k'.header, index := k'.index, flags := k'.flags, length := k'.length)
    && k.state == HeaderFieldStart && k.errno == OK
    && FlagsSet(k.flags, k'.flags, IsChunkedLine(l), IsUpgradeLine(l),
                Lists(l, KeepAlive), Lists(l, Close), Lists(l, ConnectionUpgrade))
    && k'.length == (if IsLength(l) && l.value != [] then NumberOf(l.value) else k.length)
  }

  lemma FieldByte(noBody: Core -> bool, k: Core, ch: Byte)
    requires k.state == HeaderField && IsToken(ch)
    ensures Step(noBody, k, ch) == Keep(FieldName, Go(FieldChar(k, ch), HeaderField))
  {}

  /** The characters of a name, from its second one. */
  lemma {:induction false} ReadName(noBody: Core -> bool, t: Trace, s: seq<Byte>, p: nat, w: seq<Byte>)
    returns (k: Core)
    requires t.Going() && t.core.state == HeaderField && NameRead(t.core, w) && Tokens(s) && p <= |s|
    ensures NameRead(k, w + LowerName(s[p..])) && k == t.core.(header := k.header, index := k.index)
    ensures Run(ParserStep(noBody), t, s, p)
            == t.(core := k, held := t.held + DataOf(FieldName, s[p..]), taken := t.taken + (|s| - p))
    decreases |s| - p
  {
    hide Run, Step, ParserStep, NameRead, FieldChar, DataOf, LowerName;
    if p == |s| {
      k := t.core;
      LowerNameRest(w, s, p);
      DataNone(t.held, FieldName, s);
      RunEnds(ParserStep(noBody), t, s, p);
    } else {
      NameCharRead(t.core, w, s[p]);
      FieldByte(noBody, t.core, s[p]);
      var k1 := FieldChar(t.core, s[p]);
      ReadKept(noBody, t, s, p, FieldName, k1);
      var w1 := w + [TokenOf(s[p])];
      var t1 := t.(core := k1, held := t.held + [Data(FieldName, s[p])], taken := t.taken + 1);
      k := ReadName(noBody, t1, s, p + 1, w1);
      LowerNameRest(w, s, p);
      DataFrom(t.held, FieldName, s, p, |s|);
      assert s[p + 1..|s|] == s[p + 1..] && s[p..|s|] == s[p..];
    }
  }

  /** The first character of a name. */
  lemma LineStarts(noBody: Core -> bool, k: Core, ch: Byte) returns (k1: Core)
    requires k.state == HeaderFieldStart || k.state == HeaderValueLws || k.state == DiscardLws
    requires IsToken(ch)
    ensures Step(noBody, k, ch) == Keep(FieldName, Go(k1, k1.state))
    ensures k1 == LineStart(k).(header := k1.header, index := 0, state := HeaderField) && NameRead(k1, [TokenOf(ch)])
  {
    hide StepHeadersAlmostDone, NameState, StepHeaderValueStart;
    hide StepStatusLine, StepBody, StepChunkSize, StepHeadersDone, StepHeaderField, StepHeaderValue;
    k1 := StepHeaderFieldStart(noBody, LineStart(k), ch).core;
    FirstLetter(TokenOf(ch));
  }

  lemma FirstLetter(c: Byte)
    ensures NameState([c])
            == if c == 'c' then C
               else if c == 'p' then Matching(NProxyConnection)
               else if c == 't' then Matching(NTransferEncoding)
               else if c == 'u' then Matching(NUpgrade)
               else General
  {
    forall m: Name
      ensures [c] <= m.Text() <==> c == m.Text()[0]
    {
      assert m.Text()[..1] == [m.Text()[0]];
    }
  }

  lemma LowerNameRest(w: seq<Byte>, s: seq<Byte>, p: nat)
    requires p <= |s|
    ensures if p == |s| then w + LowerName(s[p..]) == w
            else w + [TokenOf(s[p])] + LowerName(s[p + 1..]) == w + LowerName(s[p..])
  {}

  lemma LowerNameHead(name: seq<Byte>)
    requires name != []
    ensures [TokenOf(name[0])] + LowerName(name[1..]) == LowerName(name)
  {}

  /** A whole name. */
  lemma ReadWholeName(noBody: Core -> bool, t: Trace, name: seq<Byte>) returns (k: Core)
    requires BetweenLines(t) && name != [] && Tokens(name)
    ensures k == LineStart(t.core).(header := k.header, index := k.index, state := HeaderField)
    ensures NameRead(k, LowerName(name))
    ensures Read(noBody, t, name) == t.(core := k, held := DataOf(FieldName, name), taken := t.taken + |name|)
  {
    hide Run, Step, ParserStep, NameRead, LineStart, LowerName, DataOf, IsToken;
    LineStartOk(t.core);
    var k1 := LineStarts(noBody, t.core, name[0]);
    ReadKept(noBody, t, name, 0, FieldName, k1);
    var t1 := t.(core := k1, held := t.held + [Data(FieldName, name[0])], taken := t.taken + 1);
    k := ReadName(noBody, t1, name, 1, [TokenOf(name[0])]);
    LowerNameHead(name);
    DataHead(t.held, FieldName, name);
  }

  lemma {:induction false} ReadPad(noBody: Core -> bool, t: Trace, s: seq<Byte>, p: nat)
    requires t.Going() && t.core.state == DiscardWs && p <= |s| && forall i :: 0 <= i < |s| ==> IsBlank(s[i])
    ensures Run(ParserStep(noBody), t, s, p) == t.(taken := t.taken + (|s| - p))
    decreases |s| - p
  {
    hide Run;
    if p == |s| {
      RunEnds(ParserStep(noBody), t, s, p);
    } else {
      ReadSilent(noBody, t, s, p, t.core);
      ReadPad(noBody, t.(taken := t.taken + 1), s, p + 1);
    }
  }

  /** What has to hold of a value under the lower-case name w for it to be accepted. */
  predicate Acceptable(w: seq<Byte>, v: seq<Byte>) {
    && (forall i :: 0 <= i < |v| ==> v[i] != CR && v[i] != LF)
    && (w == NContentLength.Text() && v != [] ==> IsNumber(v) && NumberOf(v) < LENGTH_LIMIT)
  }

  /** The characters of a value, from its second one. */
  lemma {:induction false} ReadValueRest(noBody: Core -> bool, t: Trace, k0: Core, w: seq<Byte>, s: seq<Byte>, p: nat)
    returns (k: Core)
    requires t.Going() && 0 < p <= |s| && Acceptable(w, s) && ValueRead(k0, t.core, w, s[..p])
    ensures ValueRead(k0, k, w, s)
    ensures Run(ParserStep(noBody), t, s, p)
            == t.(core := k, held := t.held + DataOf(FieldValue, s[p..]), taken := t.taken + (|s| - p))
    decreases |s| - p
  {
    hide Run, Step, ParserStep, ValueChar, ValueRead, NumberOf;
    ValueReadOk(k0, t.core, w, s[..p]);
    if p == |s| {
      k := t.core;
      assert s[..p] == s && t.held + DataOf(FieldValue, s[p..]) == t.held;
      RunEnds(ParserStep(noBody), t, s, p);
    } else {
      var k1 := ValueChar(t.core, s[p]);
      assert s[..p + 1] == s[..p] + [s[p]];
      PrefixNumber(s, p);
      PrefixNumber(s, p + 1);
      ValueCharRead(k0, t.core, w, s[..p], s[p]);
      ValueReadOk(k0, k1, w, s[..p + 1]);
      ValueKept(noBody, t.core, s[p]);
      ReadKept(noBody, t, s, p, FieldValue, k1);
      var t1 := t.(core := k1, held := t.held + [Data(FieldValue, s[p])], taken := t.taken + 1);
      k := ReadValueRest(noBody, t1, k0, w, s, p + 1);
      DataFrom(t.held, FieldValue, s, p, |s|);
      assert s[p + 1..|s|] == s[p + 1..] && s[p..|s|] == s[p..];
    }
  }

  lemma ValueKept(noBody: Core -> bool, k: Core, ch: Byte)
    requires k.state == HeaderValue && ch != CR && ch != LF && ValueChar(k, ch).errno == OK
    ensures Step(noBody, k, ch) == Keep(FieldValue, Go(ValueChar(k, ch), HeaderValue))
            && ValueChar(k, ch).state == HeaderValue
  {}

  /** The characters of a value. */
  lemma ReadValueText(noBody: Core -> bool, t: Trace, w: seq<Byte>, v: seq<Byte>) returns (k: Core)
    requires t.Going() && t.core.state == DiscardWs && t.held == [] && NameRead(t.core, w)
    requires v != [] && !IsBlank(v[0]) && Acceptable(w, v)
    ensures ValueRead(t.core, k, w, v)
    ensures Read(noBody, t, v) == t.(core := k, held := DataOf(FieldValue, v), taken := t.taken + |v|)
  {
    hide Run, Step, ParserStep, NameRead, ValueRead, DataOf, Acceptable, IsBlank;
    var k1 := ValueStarts(noBody, t.core, w, v);
    ReadKept(noBody, t, v, 0, FieldValue, k1);
    var t1 := t.(core := k1, held := t.held + [Data(FieldValue, v[0])], taken := t.taken + 1);
    k := ReadValueRest(noBody, t1, t.core, w, v, 1);
    DataHead(t.held, FieldValue, v);
  }

  /** A whole value, from its first character to the line end. */
  lemma ReadWholeValue(noBody: Core -> bool, t: Trace, w: seq<Byte>, v: seq<Byte>) returns (k: Core)
    requires t.Going() && t.core.state == DiscardWs && t.held == [] && NameRead(t.core, w)
    requires v != [] && !IsBlank(v[0]) && Acceptable(w, v)
    ensures ValueRead(t.core, k, w, v)
    ensures Read(noBody, t, v + CRLF)
            == t.(core := k.(state := HeaderValueLws), log := t.log + DataOf(FieldValue, v), taken := t.taken + |v| + 2)
  {
    hide Run, Step, ParserStep, NameRead, ValueRead, DataOf, Acceptable, IsBlank;
    k := ReadValueText(noBody, t, w, v);
    var t2 := t.(core := k, held := DataOf(FieldValue, v), taken := t.taken + |v|);
    ReadAppend(noBody, t, v, CRLF);
    ValueReadOk(t.core, k, w, v);
    ValueEnds(noBody, k);
    ReadEndCrLf(noBody, t2, k.(state := HeaderAlmostDone), k.(state := HeaderValueLws));
  }

  lemma ValueStarts(noBody: Core -> bool, k: Core, w: seq<Byte>, v: seq<Byte>) returns (k1: Core)
    requires k.state == DiscardWs && k.errno == OK && NameRead(k, w) && v != [] && !IsBlank(v[0]) && Acceptable(w, v)
    ensures Step(noBody, k, v[0]) == Keep(FieldValue, Go(k1, k1.state)) && k1.errno == OK
    ensures ValueRead(k, k1, w, v[..1])
  {
    hide NameRead, ValueRead;
    k1 := StepHeaderValueStart(k, v[0]).core;
    ValueStartRead(k, w, v[0]);
    ValueReadOk(k, k1, w, [v[0]]);
    assert v[..1] == [v[0]];
  }

  lemma ValueReadOk(k0: Core, k: Core, w: seq<Byte>, v: seq<Byte>)
    requires ValueRead(k0, k, w, v)
    ensures k.errno == OK && k.state == HeaderValue
  {}

  lemma ValueEnds(noBody: Core -> bool, k: Core)
    ensures k.state == HeaderValue ==> Step(noBody, k, CR) == Pass(Go(k, HeaderAlmostDone))
    ensures Step(noBody, k.(state := HeaderAlmostDone), LF) == Go(k, HeaderValueLws)
    ensures k.state == DiscardWs ==> Step(noBody, k, CR) == Go(k, DiscardWsAlmostDone)
    ensures Step(noBody, k.(state := DiscardWsAlmostDone), LF) == Go(k, DiscardLws)
  {
    hide StepStatusLine, StepBody, StepChunkSize, StepHeadersAlmostDone, StepHeadersDone;
    hide StepHeaderFieldStart, StepHeaderValueStart, ValueChar, FieldChar, IsToken, Finished;
  }

  lemma NameEnds(noBody: Core -> bool, k: Core)
    requires k.state == HeaderField
    ensures Step(noBody, k, ':') == Pass(Go(k, DiscardWs))
  {
    hide FieldChar;
  }

  /** The flags a finished header leaves. */
  lemma FlagsFinished(k0: Core, k: Core, l: Line)
    requires ValueRead(k0, k, LowerName(l.name), l.value) && l.value != []
    ensures Finished(k) == k.(flags := Finished(k).flags)
    ensures FlagsSet(k0.flags, Finished(k).flags, IsChunkedLine(l), IsUpgradeLine(l),
                     Lists(l, KeepAlive), Lists(l, Close), Lists(l, ConnectionUpgrade))
  {
    hide ListRead, ChunkedRead, NumberOf, IsWord, IsPart, Takes, LowerName;
    var w := LowerName(l.name);
    DifferentNames(w);
    if IsConnection(w) {
      ListFinished(k0.flags, k, l.value);
    } else if w == NTransferEncoding.Text() {
      ChunkedHeader(k, l.value);
    }
  }

  /** The word at the end of a list is taken when the header is finished. */
  lemma ListFinished(f0: Flags, k: Core, v: seq<Byte>)
    requires ListRead(f0, k, v)
    ensures FlagsTaken(f0, Finished(k).flags, Split(v)) && Finished(k) == k.(flags := Finished(k).flags)
  {
    hide FlagsTaken, ListState, ModeAfter, SetFlag;
    var items := Split(v);
    var n := |items| - 1;
    FirstItem(v);
    if n > 0 { NotFirst(items[..n]); } else { FirstMode(items); }
    StateInList(ModeAfter(items[..n]), items[n]);
    FlagsSnoc(f0, k.flags, items[..n], items[n]);
    assert items[..n] + [items[n]] == items;
  }

  lemma ChunkedHeader(k: Core, v: seq<Byte>)
    requires ChunkedRead(k, v)
    ensures if IsChunked(v) then k.header == Found(Chunked) else !k.header.Found?
  {
    hide IsWord, IsPart;
  }

  lemma LineWithValue(k0: Core, k1: Core, k: Core, l: Line)
    requires k0.state == HeaderFieldStart && k0.errno == OK && l.value != []
    requires k1 == k0.(header := k1.header, index := k1.index, state := DiscardWs)
    requires ValueRead(k1, k, LowerName(l.name), l.value)
    ensures LineDone(k0, LineStart(k.(state := HeaderValueLws)), l)
  {
    hide IsChunkedLine, IsUpgradeLine, Lists, NumberOf, LowerName, ChunkedRead, ListRead, Finished, FlagsSet;
    FlagsFinished(k1, k, l);
    FinishedState(k, HeaderValueLws);
  }

  lemma FinishedState(k: Core, s: State)
    ensures Finished(k.(state := s)) == Finished(k).(state := s)
  {}

  lemma LineWithoutValue(k0: Core, k1: Core, l: Line)
    requires k0.state == HeaderFieldStart && k0.errno == OK && l.value == [] && l.name != []
    requires k1 == k0.(header := k1.header, index := k1.index, state := DiscardWs)
    requires NameRead(k1, LowerName(l.name))
    ensures LineDone(k0, LineStart(k1.(state := DiscardLws)), l)
  {
    hide LowerName, NameState, IsWord;
    KnownNames(LowerName(l.name));
    NoWord(Chunked);
  }

  /** A name and its colon. */
  lemma ReadNameColon(noBody: Core -> bool, t: Trace, name: seq<Byte>) returns (k: Core)
    requires BetweenLines(t) && name != [] && Tokens(name)
    ensures k == LineStart(t.core).(header := k.header, index := k.index, state := DiscardWs)
    ensures NameRead(k, LowerName(name))
    ensures Read(noBody, t, name + [':'])
            == t.(core := k, log := t.log + DataOf(FieldName, name), taken := t.taken + |name| + 1)
  {
    hide Run, Step, ParserStep, LineStart;
    var k1 := ReadWholeName(noBody, t, name);
    var t1 := t.(core := k1, held := DataOf(FieldName, name), taken := t.taken + |name|);
    k := k1.(state := DiscardWs);
    LineStartOk(t.core);
    NameEnds(noBody, k1);
    ReadAppend(noBody, t, name, [':']);
    ReadOne(noBody, t1, ':', Pass(Go(k1, DiscardWs)));
    assert t1.log + t1.held + Notified([]) == t1.log + t1.held;
  }

  lemma LineStartOk(k: Core)
    ensures LineStart(k).errno == k.errno && LineStart(k).state == HeaderFieldStart
  {}

  /** A header line, whatever its name and value, is told as its name and its value. */
  lemma ReadLine(noBody: Core -> bool, t: Trace, l: Line)
    requires BetweenLines(t) && ValidLine(l)
    ensures var t' := Read(noBody, t, LineText(l));
            && BetweenLines(t') && t'.log == t.log + LineSeen(l) && t'.taken == t.taken + |LineText(l)|
            && LineDone(LineStart(t.core), LineStart(t'.core), l)
  {
    hide Run, Step, ParserStep, NameRead, ValueRead, LineStart, LineDone;
    var k1 := ReadNameColon(noBody, t, l.name);
    var t1 := t.(core := k1, log := t.log + DataOf(FieldName, l.name), taken := t.taken + |l.name| + 1);
    LineStartOk(t.core);
    var t2 := t1.(taken := t1.taken + |l.pad|);
    ReadPad(noBody, t1, l.pad, 0);
    LinePieces(noBody, t, l);
    assert t1.log + DataOf(FieldValue, l.value) == t.log + LineSeen(l);
    if l.value == [] {
      assert l.value + CRLF == CRLF;
      ValueEnds(noBody, k1);
      ReadCrLf(noBody, t2, k1.(state := DiscardWsAlmostDone), k1.(state := DiscardLws));
      LineWithoutValue(LineStart(t.core), k1, l);
    } else {
      var k := ReadWholeValue(noBody, t2, LowerName(l.name), l.value);
      ValueReadOk(k1, k, LowerName(l.name), l.value);
      LineWithValue(LineStart(t.core), k1, k, l);
    }
  }

  lemma LinePieces(noBody: Core -> bool, t: Trace, l: Line)
    ensures Read(noBody, t, LineText(l))
            == Read(noBody, Read(noBody, Read(noBody, t, l.name + [':']), l.pad), l.value + CRLF)
    ensures |LineText(l)| == |l.name| + 1 + |l.pad| + |l.value| + 2
  {
    hide Run;
    assert LineText(l) == (l.name + [':']) + (l.pad + (l.value + CRLF));
    ReadAppend(noBody, t, l.name + [':'], l.pad + (l.value + CRLF));
    ReadAppend(noBody, Read(noBody, t, l.name + [':']), l.pad, l.value + CRLF);
  }

  function LinesText(lines: seq<Line>): seq<Byte> {
    if lines == [] then [] else LineText(lines[0]) + LinesText(lines[1..])
  }

  function LinesSeen(lines: seq<Line>): seq<Seen> {
    if lines == [] then [] else LineSeen(lines[0]) + LinesSeen(lines[1..])
  }

  predicate ValidLines(lines: seq<Line>) {
    forall i :: 0 <= i < |lines| ==> ValidLine(lines[i])
  }

  /** Whether a header says that the body is chunked. */
  predicate SaysChunked(lines: seq<Line>) {
    exists i :: 0 <= i < |lines| && IsChunkedLine(lines[i])
  }

  predicate OffersUpgrade(lines: seq<Line>) {
    exists i :: 0 <= i < |lines| && IsUpgradeLine(lines[i])
  }

  /** A word that some Connection line of a header is taken to list. */
  predicate ListsWord(lines: seq<Line>, t: Token) {
    exists i :: 0 <= i < |lines| && Lists(lines[i], t)
  }

  /** The length the last Content-Length header gives, or what it was before. */
  function SaysLength(length: nat, lines: seq<Line>): nat
    decreases |lines|
  {
    if lines == [] then length
    else
      var l := lines[0];
      SaysLength(if IsLength(l) && l.value != [] then NumberOf(l.value) else length, lines[1..])
  }

  /** What the lines of a header leave in the fields. */
  predicate LinesDone(k: Core, k': Core, lines: seq<Line>) {
    && k' == k.(header := k'.header, index := k'.index, flags := k'.flags, length := k'.length)
    && k.state == HeaderFieldStart && k.errno == OK
    && FlagsSet(k.flags, k'.flags, SaysChunked(lines), OffersUpgrade(lines),
                ListsWord(lines, KeepAlive), ListsWord(lines, Close), ListsWord(lines, ConnectionUpgrade))
    && k'.length == SaysLength(k.length, lines)
  }

  lemma MoreLines(k: Core, k1: Core, k': Core, lines: seq<Line>)
    requires lines != [] && LineDone(k, k1, lines[0]) && LinesDone(k1, k', lines[1..])
    ensures LinesDone(k, k', lines)
  {
    hide IsChunkedLine, IsUpgradeLine, Lists;
    assert forall i :: 0 < i < |lines| ==> lines[i] == lines[1..][i - 1];
    assert forall i :: 0 <= i < |lines[1..]| ==> lines[1..][i] == lines[i + 1];
    assert SaysChunked(lines) <==> IsChunkedLine(lines[0]) || SaysChunked(lines[1..]);
    assert OffersUpgrade(lines) <==> IsUpgradeLine(lines[0]) || OffersUpgrade(lines[1..]);
    MoreWords(lines, KeepAlive);
    MoreWords(lines, Close);
    MoreWords(lines, ConnectionUpgrade);
  }

  lemma MoreWords(lines: seq<Line>, t: Token)
    requires lines != []
    ensures ListsWord(lines, t) <==> Lists(lines[0], t) || ListsWord(lines[1..], t)
  {
    hide Lists;
    assert forall i :: 0 < i < |lines| ==> lines[i] == lines[1..][i - 1];
    assert forall i :: 0 <= i < |lines[1..]| ==> lines[1..][i] == lines[i + 1];
  }

  /** Any number of header lines. */
  lemma {:induction false} ReadLines(noBody: Core -> bool, t: Trace, lines: seq<Line>)
    requires BetweenLines(t) && ValidLines(lines)
    ensures var t' := Read(noBody, t, LinesText(lines));
            && BetweenLines(t') && t'.log == t.log + LinesSeen(lines) && t'.taken == t.taken + |LinesText(lines)|
            && LinesDone(LineStart(t.core), LineStart(t'.core), lines)
    decreases |lines|
  {
    hide Run, Step, ParserStep, LineStart, LineDone, LinesDone, ValidLine, LineSeen, LineText;
    if lines == [] {
      RunEnds(ParserStep(noBody), t, [], 0);
      assert t.log + [] == t.log;
      LineStartOk(t.core);
      NoLines(LineStart(t.core));
    } else {
      var t1 := Read(noBody, t, LineText(lines[0]));
      ReadLine(noBody, t, lines[0]);
      ReadLines(noBody, t1, lines[1..]);
      ReadAppend(noBody, t, LineText(lines[0]), LinesText(lines[1..]));
      var t' := Read(noBody, t1, LinesText(lines[1..]));
      MoreLines(LineStart(t.core), LineStart(t1.core), LineStart(t'.core), lines);
      assert t.log + LineSeen(lines[0]) + LinesSeen(lines[1..]) == t.log + (LineSeen(lines[0]) + LinesSeen(lines[1..]));
    }
  }

  lemma NoLines(k: Core)
    requires k.state == HeaderFieldStart && k.errno == OK
    ensures LinesDone(k, k, [])
  {}

  // Chunked bodies

  /** A chunk: its size in hexadecimal, what follows the size, and its data. */
  datatype Chunk = Chunk(size: seq<Byte>, extension: seq<Byte>, data: seq<Byte>)

  predicate IsHex(s: seq<Byte>) {
    forall i :: 0 <= i < |s| ==> HexPlace(s[i]) >= 0
  }

  /** The number that hexadecimal digits say, each by its place among the digits of either case. */
  function HexOf(s: seq<Byte>): nat
    requires IsHex(s)
  {
    if s == [] then 0 else HexOf(s[..|s| - 1]) * 16 + HexPlace(s[|s| - 1])
  }

  /** The least chunk size that is too long for the parser. */
  const CHUNK_LIMIT: nat := ULLONG_MAX - 15

  predicate IsExtension(s: seq<Byte>) {
    s == [] || ((s[0] == ';' || s[0] == ' ') && forall i :: 0 <= i < |s| ==> s[i] != CR)
  }

  predicate ValidSize(size: seq<Byte>, extension: seq<Byte>, n: nat) {
    size != [] && IsHex(size) && HexOf(size) == n < CHUNK_LIMIT && IsExtension(extension)
  }

  predicate ValidChunk(c: Chunk) {
    ValidSize(c.size, c.extension, |c.data|) && c.data != []
  }

  function ChunkText(c: Chunk): seq<Byte> {
    c.size + (c.extension + (CRLF + (c.data + CRLF)))
  }

  function ChunkSeen(c: Chunk): seq<Seen> {
    [Notify(ChunkHeader(|c.data|))] + DataOf(Body, c.data) + [Notify(ChunkComplete)]
  }

  lemma {:induction false} HexPrefix(s: seq<Byte>, n: nat)
    requires n <= |s| && IsHex(s)
    ensures HexOf(s[..n]) <= HexOf(s)
    decreases |s|
  {
    if n < |s| {
      var u := s[..|s| - 1];
      HexPrefix(u, n);
      assert u[..n] == s[..n];
    } else {
      assert s[..n] == s;
    }
  }

  lemma HexSnoc(s: seq<Byte>, p: nat)
    requires p < |s| && IsHex(s)
    ensures HexOf(s[..p + 1]) == HexOf(s[..p]) * 16 + HexPlace(s[p])
  {
    assert s[..p + 1][..p] == s[..p];
  }

  /** One more digit of a chunk size is read exactly when the size is not too long with it. */
  lemma SizeDigit(noBody: Core -> bool, k: Core, ch: Byte)
    requires k.state == ChunkSize && HexPlace(ch) >= 0
    ensures var n := k.length * 16 + HexPlace(ch);
            Step(noBody, k, ch) == if n < CHUNK_LIMIT then Go(k.(length := n), ChunkSize)
                else Fail(k, InvalidContentLength)
  {
    hide StepStatusLine, StepHeaderFieldStart, StepHeaderField, StepHeaderEnds, StepHeaderValue, StepBody;
    hide StepHeadersAlmostDone, StepHeadersDone;
    UnhexIsPlace(ch);
    hide HexPlace;
    assert ch != CR;
  }

  lemma {:induction false} ReadSizeDigits(noBody: Core -> bool, t: Trace, s: seq<Byte>, p: nat)
    requires t.Going() && t.core.state == ChunkSize && IsHex(s) && p <= |s| && t.core.length == HexOf(s[..p])
    requires HexOf(s) < CHUNK_LIMIT
    ensures Run(ParserStep(noBody), t, s, p) == t.(core := t.core.(length := HexOf(s)), taken := t.taken + (|s| - p))
    decreases |s| - p
  {
    hide Run, Step, ParserStep;
    if p == |s| {
      assert s[..p] == s;
      RunEnds(ParserStep(noBody), t, s, p);
    } else {
      HexPrefix(s, p + 1);
      HexSnoc(s, p);
      SizeDigit(noBody, t.core, s[p]);
      var k1 := t.core.(length := HexOf(s[..p + 1]));
      ReadSilent(noBody, t, s, p, k1);
      ReadSizeDigits(noBody, t.(core := k1, taken := t.taken + 1), s, p + 1);
    }
  }

  lemma {:induction false} ReadExtension(noBody: Core -> bool, t: Trace, s: seq<Byte>, p: nat)
    requires t.Going() && p <= |s| && forall i :: 0 <= i < |s| ==> s[i] != CR
    requires t.core.state == ChunkParameters
    ensures Run(ParserStep(noBody), t, s, p) == t.(taken := t.taken + (|s| - p))
    decreases |s| - p
  {
    hide Run;
    if p == |s| {
      RunEnds(ParserStep(noBody), t, s, p);
    } else {
      ReadSilent(noBody, t, s, p, t.core);
      ReadExtension(noBody, t.(taken := t.taken + 1), s, p + 1);
    }
  }

  /** What a chunk size line leaves. */
  function AfterSize(k: Core, n: nat): Core {
    if n == 0 then k.(length := 0, flags := k.flags.(trailing := true), state := HeaderFieldStart)
    else k.(length := n, state := ChunkData)
  }

  lemma SizeSteps(noBody: Core -> bool, k: Core, ch: Byte)
    ensures k.state == ChunkSizeStart && HexPlace(ch) >= 0 ==>
              Step(noBody, k, ch) == Go(k.(length := HexPlace(ch)), ChunkSize)
    ensures k.state == ChunkSize && (ch == ';' || ch == ' ') ==> Step(noBody, k, ch) == Go(k, ChunkParameters)
    ensures k.state == ChunkSize || k.state == ChunkParameters ==> Step(noBody, k, CR) == Go(k, ChunkSizeAlmostDone)
    ensures Step(noBody, k.(state := ChunkSizeAlmostDone), LF)
            == Out(AfterSize(k, k.length), None, false, [ChunkHeader(k.length)], false, true)
  {
    hide StepStatusLine, StepHeaderFieldStart, StepHeaderField, StepHeaderEnds, StepHeaderValue, StepBody;
    hide StepHeadersAlmostDone, StepHeadersDone, HexPlace;
    UnhexIsPlace(ch);
  }

  /** The end of a size line. */
  lemma ReadSizeCrLf(noBody: Core -> bool, t: Trace, n: nat)
    requires t.Going() && (t.core.state == ChunkSize || t.core.state == ChunkParameters) && t.core.length == n
             && t.held == []
    ensures Read(noBody, t, CRLF)
            == t.(core := AfterSize(t.core, n), log := t.log + [Notify(ChunkHeader(n))], taken := t.taken + 2)
  {
    hide Run, Step, ParserStep, AfterSize;
    SizeSteps(noBody, t.core, CR);
    SizeAfter(t.core, n);
    var k1 := t.core.(state := ChunkSizeAlmostDone);
    ReadSilent(noBody, t, CRLF, 0, k1);
    var t1 := t.(core := k1, taken := t.taken + 1);
    var o := Out(AfterSize(t.core, n), None, false, [ChunkHeader(n)], false, true);
    ReadByte(noBody, t1, CRLF, 1, o);
    RunEnds(ParserStep(noBody), After(t1, LF, o), CRLF, 2);
    assert Notified([ChunkHeader(n)]) == [Notify(ChunkHeader(n))];
  }

  /** The state before a size line does not matter after it. */
  lemma SizeAfter(k: Core, n: nat)
    ensures AfterSize(k, n).errno == k.errno
    ensures forall s: State, m: nat :: AfterSize(k.(state := s, length := m), n) == AfterSize(k, n)
  {}

  lemma FirstHexDigit(size: seq<Byte>)
    requires size != [] && IsHex(size)
    ensures 0 <= HexPlace(size[0]) == HexOf(size[..1])
  {
    HexSnoc(size, 0);
    assert size[..0] == [];
  }

  /** The digits of a chunk size. */
  lemma ReadSizeText(noBody: Core -> bool, t: Trace, size: seq<Byte>)
    requires t.Going() && t.core.state == ChunkSizeStart && size != [] && IsHex(size) && HexOf(size) < CHUNK_LIMIT
    ensures Read(noBody, t, size)
            == t.(core := t.core.(length := HexOf(size), state := ChunkSize), taken := t.taken + |size|)
  {
    hide Run, Step, ParserStep, HexPlace;
    FirstHexDigit(size);
    SizeSteps(noBody, t.core, size[0]);
    var k1 := t.core.(length := HexPlace(size[0]), state := ChunkSize);
    ReadSilent(noBody, t, size, 0, k1);
    ReadSizeDigits(noBody, t.(core := k1, taken := t.taken + 1), size, 1);
  }

  /** What follows a chunk size on its line. */
  lemma ReadSizeEnd(noBody: Core -> bool, t: Trace, extension: seq<Byte>) returns (s: State)
    requires t.Going() && t.core.state == ChunkSize && IsExtension(extension)
    ensures s == ChunkSize || s == ChunkParameters
    ensures Read(noBody, t, extension) == t.(core := t.core.(state := s), taken := t.taken + |extension|)
  {
    hide Run, Step, ParserStep;
    if extension == [] {
      s := ChunkSize;
      RunEnds(ParserStep(noBody), t, [], 0);
    } else {
      s := ChunkParameters;
      SizeSteps(noBody, t.core, extension[0]);
      var k1 := t.core.(state := s);
      ReadSilent(noBody, t, extension, 0, k1);
      ReadExtension(noBody, t.(core := k1, taken := t.taken + 1), extension, 1);
    }
  }

  /** A chunk size line tells its size. */
  lemma ReadSizeLine(noBody: Core -> bool, t: Trace, size: seq<Byte>, extension: seq<Byte>, n: nat)
    requires t.Going() && t.core.state == ChunkSizeStart && t.held == [] && ValidSize(size, extension, n)
    ensures Read(noBody, t, size + (extension + CRLF))
            == t.(core := AfterSize(t.core, n), log := t.log + [Notify(ChunkHeader(n))],
                  taken := t.taken + |size + (extension + CRLF)|)
  {
    hide Run, Step, ParserStep, IsHex, HexOf, IsExtension, AfterSize;
    SizeAfter(t.core, n);
    var t1 := t.(core := t.core.(length := n, state := ChunkSize), taken := t.taken + |size|);
    ReadSizeText(noBody, t, size);
    var s := ReadSizeEnd(noBody, t1, extension);
    var t2 := t1.(core := t1.core.(state := s), taken := t1.taken + |extension|);
    ReadSizeCrLf(noBody, t2, n);
    ReadAppend(noBody, t, size, extension + CRLF);
    ReadAppend(noBody, t1, extension, CRLF);
  }

  /** The bytes of a body before its last one. */
  lemma ReadButLast(noBody: Core -> bool, t: Trace, data: seq<Byte>)
    requires t.Going() && t.held == [] && t.core.length == |data| > 0
    requires t.core.state == ChunkData || t.core.state == BodyIdentity
    ensures var q := |data| - 1;
            Run(ParserStep(noBody), t, data, 0)
            == Run(ParserStep(noBody),
                   t.(core := t.core.(length := 1), held := DataOf(Body, data[..q]), taken := t.taken + q), data, q)
  {
    hide Run, Step, ParserStep, DataOf, HttpExecute.TakesBytes;
    var q := |data| - 1;
    HttpExecute.ParserTakesBytes(noBody);
    HttpExecute.Skip(ParserStep(noBody), t, Body, data, 0, q, t.core.(length := 1));
    assert data[0..q] == data[..q] && t.held + DataOf(Body, data[..q]) == DataOf(Body, data[..q]);
  }

  /** The data of a chunk, to its last byte. */
  lemma ReadChunkData(noBody: Core -> bool, t: Trace, data: seq<Byte>)
    requires t.Going() && t.core.state == ChunkData && t.held == [] && t.core.length == |data| > 0
    ensures Read(noBody, t, data)
            == t.(core := t.core.(length := 0, state := ChunkDataAlmostDone), held := DataOf(Body, data),
                taken := t.taken + |data|)
  {
    hide Run, Step, ParserStep, DataOf;
    var q := |data| - 1;
    ReadButLast(noBody, t, data);
    var k1 := t.core.(length := 1);
    var t1 := t.(core := k1, held := DataOf(Body, data[..q]), taken := t.taken + q);
    var k2 := k1.(length := 0, state := ChunkDataAlmostDone);
    ChunkSteps(noBody, k1, data[q]);
    ReadKept(noBody, t1, data, q, Body, k2);
    DataLast(Body, data);
    RunEnds(ParserStep(noBody), t1.(core := k2, held := DataOf(Body, data), taken := t.taken + |data|), data, |data|);
  }

  lemma ChunkSteps(noBody: Core -> bool, k: Core, ch: Byte)
    ensures k.state == ChunkData && k.length == 1 ==>
              Step(noBody, k, ch) == Keep(Body, Go(k.(length := 0), ChunkDataAlmostDone))
    ensures k.state == ChunkDataAlmostDone ==> Step(noBody, k, CR) == Pass(Go(k, ChunkDataDone))
    ensures Step(noBody, k.(state := ChunkDataDone), LF)
            == Out(k.(state := ChunkSizeStart), None, false, [ChunkComplete], false, true)
  {
    hide StepStatusLine, StepHeaderFieldStart, StepHeaderField, StepHeaderEnds, StepHeaderValue, StepChunkSize;
    hide StepHeadersAlmostDone, StepHeadersDone, StepMessageDone;
  }

  /** The line end after a chunk's data, where the data is passed on. */
  lemma ReadChunkEnd(noBody: Core -> bool, t: Trace)
    requires t.Going() && t.core.state == ChunkDataAlmostDone
    ensures Read(noBody, t, CRLF)
            == t.(core := t.core.(state := ChunkSizeStart), log := t.log + t.held + [Notify(ChunkComplete)], held := [],
                  taken := t.taken + 2)
  {
    hide Run, Step, ParserStep;
    ChunkSteps(noBody, t.core, CR);
    var k1 := t.core.(state := ChunkDataDone);
    ReadByte(noBody, t, CRLF, 0, Pass(Go(k1, ChunkDataDone)));
    var t1 := t.(core := k1, log := t.log + t.held, held := [], taken := t.taken + 1);
    assert t1.log + Notified([]) == t1.log;
    var o := Out(t.core.(state := ChunkSizeStart), None, false, [ChunkComplete], false, true);
    ReadByte(noBody, t1, CRLF, 1, o);
    assert Notified([ChunkComplete]) == [Notify(ChunkComplete)];
    RunEnds(ParserStep(noBody), After(t1, LF, o), CRLF, 2);
  }

  /** A chunk is told as its size, its data and its end. */
  lemma ReadChunk(noBody: Core -> bool, t: Trace, c: Chunk)
    requires t.Going() && t.core.state == ChunkSizeStart && t.held == [] && ValidChunk(c)
    ensures Read(noBody, t, ChunkText(c))
            == t.(core := t.core.(length := 0), log := t.log + ChunkSeen(c), taken := t.taken + |ChunkText(c)|)
  {
    hide Run, Step, ParserStep, IsHex, HexOf, IsExtension, DataOf, ChunkText, ChunkSeen;
    var n := |c.data|;
    var line := c.size + (c.extension + CRLF);
    ReadSizeLine(noBody, t, c.size, c.extension, n);
    var t1 := t.(core := AfterSize(t.core, n), log := t.log + [Notify(ChunkHeader(n))], taken := t.taken + |line|);
    ReadChunkData(noBody, t1, c.data);
    var t2 := t1.(core := t1.core.(length := 0, state := ChunkDataAlmostDone), held := DataOf(Body, c.data),
        taken := t1.taken + n);
    ReadChunkEnd(noBody, t2);
    ChunkPieces(c, t.log);
    ReadAppend(noBody, t, line, c.data + CRLF);
    ReadAppend(noBody, t1, c.data, CRLF);
  }

  lemma ChunkPieces(c: Chunk, log: seq<Seen>)
    ensures ChunkText(c) == (c.size + (c.extension + CRLF)) + (c.data + CRLF)
    ensures log + [Notify(ChunkHeader(|c.data|))] + DataOf(Body, c.data) + [Notify(ChunkComplete)] == log + ChunkSeen(c)
  {}

  function ChunksText(chunks: seq<Chunk>): seq<Byte> {
    if chunks == [] then [] else ChunkText(chunks[0]) + ChunksText(chunks[1..])
  }

  function ChunksSeen(chunks: seq<Chunk>): seq<Seen> {
    if chunks == [] then [] else ChunkSeen(chunks[0]) + ChunksSeen(chunks[1..])
  }

  lemma {:induction false} ReadChunks(noBody: Core -> bool, t: Trace, chunks: seq<Chunk>)
    requires t.Going() && t.core.state == ChunkSizeStart && t.held == []
    requires forall i :: 0 <= i < |chunks| ==> ValidChunk(chunks[i])
    ensures Read(noBody, t, ChunksText(chunks))
            == t.(core := if chunks == [] then t.core else t.core.(length := 0),
                  log := t.log + ChunksSeen(chunks), taken := t.taken + |ChunksText(chunks)|)
    decreases |chunks|
  {
    hide Run, Step, ParserStep, ValidChunk, ChunkSeen, ChunkText;
    if chunks == [] {
      RunEnds(ParserStep(noBody), t, [], 0);
      assert t.log + [] == t.log;
    } else {
      var c := chunks[0];
      var t1 := t.(core := t.core.(length := 0), log := t.log + ChunkSeen(c), taken := t.taken + |ChunkText(c)|);
      ReadChunk(noBody, t, c);
      ReadChunks(noBody, t1, chunks[1..]);
      ReadAppend(noBody, t, ChunkText(c), ChunksText(chunks[1..]));
      assert t1.log + ChunksSeen(chunks[1..]) == t.log + (ChunkSeen(c) + ChunksSeen(chunks[1..]));
    }
  }

  /** The chunks of a body, its last chunk of size zero, and its trailer. */
  datatype ChunkedBody = ChunkedBody(chunks: seq<Chunk>, zero: seq<Byte>, extension: seq<Byte>, trailer: seq<Line>)

  predicate ValidBody(b: ChunkedBody) {
    && (forall i :: 0 <= i < |b.chunks| ==> ValidChunk(b.chunks[i]))
    && ValidSize(b.zero, b.extension, 0) && ValidLines(b.trailer)
  }

  function BodyText(b: ChunkedBody): seq<Byte> {
    ChunksText(b.chunks) + ((b.zero + (b.extension + CRLF)) + (LinesText(b.trailer) + CRLF))
  }

  function BodySeen(b: ChunkedBody): seq<Seen> {
    ChunksSeen(b.chunks) + [Notify(ChunkHeader(0))] + LinesSeen(b.trailer)
    + [Notify(ChunkComplete), Notify(MessageComplete)]
  }

  /** The empty line that ends a header or a trailer. */
  lemma EmptyLine(noBody: Core -> bool, k: Core)
    requires k.state == HeaderFieldStart || k.state == HeaderValueLws || k.state == DiscardLws
    ensures Step(noBody, k, CR) == Go(LineStart(k), HeadersAlmostDone)
    ensures Step(noBody, LineStart(k).(state := HeadersAlmostDone), LF)
            == StepHeadersAlmostDone(noBody, LineStart(k).(state := HeadersAlmostDone), LF)
  {
    hide StepHeadersAlmostDone;
  }

  lemma ReadEmptyLine(noBody: Core -> bool, t: Trace, o: Out)
    requires BetweenLines(t) && o == StepHeadersAlmostDone(noBody, LineStart(t.core).(state := HeadersAlmostDone), LF)
    ensures Read(noBody, t, CRLF)
            == After(t.(core := LineStart(t.core).(state := HeadersAlmostDone), taken := t.taken + 1), LF, o)
  {
    hide Run, Step, ParserStep, StepHeadersAlmostDone, After;
    EmptyLine(noBody, t.core);
    LineStartOk(t.core);
    var k1 := LineStart(t.core).(state := HeadersAlmostDone);
    var t1 := t.(core := k1, taken := t.taken + 1);
    ReadSilent(noBody, t, CRLF, 0, k1);
    ReadByte(noBody, t1, CRLF, 1, o);
    RunEnds(ParserStep(noBody), After(t1, LF, o), CRLF, 2);
  }

  lemma TrailerEnds(noBody: Core -> bool, k: Core)
    requires k.flags.trailing
    ensures StepHeadersAlmostDone(noBody, k, LF)
            == Out(k.(state := NewMessage(k)), None, false, [ChunkComplete, MessageComplete], k.upgrade, false)
  {
    assert NewMessage(k) == NewMessage(k.(state := MessageDone));
  }

  /** Whether a connection is kept, by the version and the flags of Connection lines. */
  predicate Persists(major: nat, minor: nat, keepAlive: bool, close: bool) {
    if major > 0 && minor > 0 then !close else keepAlive
  }

  /** The message is over: nothing is held, and the next byte starts a message, or is refused. */
  predicate MessageOver(t: Trace, persists: bool) {
    t.held == [] && t.core.errno == OK && t.core.state == if persists then StartRes else Dead
  }

  lemma NextState(k: Core)
    requires !NeedsEof(k)
    ensures NewMessage(k) == if Persists(k.major, k.minor, k.flags.keepAlive, k.flags.close) then StartRes else Dead
  {}

  /** A trailer and the empty line after it. */
  lemma ReadTrailer(noBody: Core -> bool, t: Trace, trailer: seq<Line>)
    requires t.Going() && t.held == [] && t.core.state == HeaderFieldStart && ValidLines(trailer)
    requires t.core.flags.trailing && t.core.flags.chunked
    ensures var t' := Read(noBody, t, LinesText(trailer) + CRLF);
            && t'.log == t.log + (LinesSeen(trailer) + [Notify(ChunkComplete), Notify(MessageComplete)])
            && t'.taken == t.taken + |LinesText(trailer)| + 2 && t'.exited == t.core.upgrade
            && MessageOver(t', Persists(t.core.major, t.core.minor,
                                        t.core.flags.keepAlive || ListsWord(trailer, KeepAlive),
                                        t.core.flags.close || ListsWord(trailer, Close)))
  {
    hide Run, Step, ParserStep, ValidLine, LineStart, NewMessage, Persists, ListsWord;
    AtLineStart(t.core);
    ReadLines(noBody, t, trailer);
    var t3 := Read(noBody, t, LinesText(trailer));
    var k := LineStart(t3.core).(state := HeadersAlmostDone);
    TrailerEnds(noBody, k);
    NextState(k);
    var o := Out(k.(state := NewMessage(k)), None, false, [ChunkComplete, MessageComplete], k.upgrade, false);
    ReadEmptyLine(noBody, t3, o);
    ReadAppend(noBody, t, LinesText(trailer), CRLF);
    assert Notified(o.notes) == [Notify(ChunkComplete), Notify(MessageComplete)];
    assert t.log + LinesSeen(trailer) + Notified(o.notes) == t.log + (LinesSeen(trailer) + Notified(o.notes));
  }

  /**
   * The callbacks see of a chunked body the sizes and the data of its chunks and the lines of its
   * trailer, and one message_complete, at the end. Connection lines in the trailer count, too.
   */
  lemma ReadChunkedBody(noBody: Core -> bool, t: Trace, b: ChunkedBody)
    requires t.Going() && t.core.state == ChunkSizeStart && t.core.flags.chunked && t.held == [] && ValidBody(b)
    ensures var t' := Read(noBody, t, BodyText(b));
            && t'.log == t.log + BodySeen(b) && t'.taken == t.taken + |BodyText(b)|
            && t'.exited == t.core.upgrade
            && MessageOver(t', Persists(t.core.major, t.core.minor,
                                        t.core.flags.keepAlive || ListsWord(b.trailer, KeepAlive),
                                        t.core.flags.close || ListsWord(b.trailer, Close)))
  {
    hide Run, Step, ParserStep, ValidChunk, ValidLine, MessageOver, Trace.Going, ListsWord, Persists;
    hide LinesText, ChunksText, LinesSeen, ChunksSeen, IsHex, HexOf, IsExtension, BodyText, BodySeen;
    BodyPieces(b, t.log);
    var line := b.zero + (b.extension + CRLF);
    var rest := LinesText(b.trailer) + CRLF;
    ReadChunks(noBody, t, b.chunks);
    var t1 := Read(noBody, t, ChunksText(b.chunks));
    GoingOn(t, t1);
    ReadSizeLine(noBody, t1, b.zero, b.extension, 0);
    var t2 := Read(noBody, t1, line);
    GoingOn(t1, t2);
    ReadTrailer(noBody, t2, b.trailer);
    ReadAppend(noBody, t, ChunksText(b.chunks), line + rest);
    ReadAppend(noBody, t1, line, rest);
  }

  lemma BodyPieces(b: ChunkedBody, log: seq<Seen>)
    ensures BodyText(b) == ChunksText(b.chunks) + ((b.zero + (b.extension + CRLF)) + (LinesText(b.trailer) + CRLF))
    ensures log + ChunksSeen(b.chunks) + [Notify(ChunkHeader(0))]
            + (LinesSeen(b.trailer) + [Notify(ChunkComplete), Notify(MessageComplete)]) == log + BodySeen(b)
  {
    hide ChunksSeen, LinesSeen, ChunksText, LinesText;
    SeenInOrder(log, ChunksSeen(b.chunks), [Notify(ChunkHeader(0))], LinesSeen(b.trailer),
                [Notify(ChunkComplete), Notify(MessageComplete)]);
  }

  lemma GoingOn(t: Trace, t': Trace)
    requires t.Going() && t'.core.errno == t.core.errno && t'.exited == t.exited
    ensures t'.Going()
  {}

  lemma SeenInOrder(log: seq<Seen>, a: seq<Seen>, b: seq<Seen>, c: seq<Seen>, d: seq<Seen>)
    ensures log + a + b + (c + d) == log + (a + b + c + d)
  {}

  lemma AtLineStart(k: Core)
    requires k.state == HeaderFieldStart
    ensures LineStart(k) == k
  {}
}
