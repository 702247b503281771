/** http_parser_execute: the loop over the data of one call, with its marks and its inner loops. */
module HttpExecute {
  import opened Bytes
  import opened HttpParser
  import opened HttpRuns

  const HTTP_MAX_HEADER_SIZE: nat := 80 * 1024

  /** Where data of each kind was marked in this call, if it was. */
  datatype Marks = Marks(field: Option<nat>, value: Option<nat>, status: Option<nat>, body: Option<nat>)

  const NO_MARKS := Marks(None, None, None, None)

  /** Marks are set exactly while an item is open; only a body may be open with its mark not set. */
  predicate MarksOk(s: State, m: Marks, p: nat) {
    && (m.field.Some? <==> s.HeaderField?) && (m.field.Some? ==> m.field.value <= p)
    && (m.value.Some? <==> s.HeaderValue?) && (m.value.Some? ==> m.value.value <= p)
    && (m.status.Some? <==> s.Status?) && (m.status.Some? ==> m.status.value <= p)
    && (m.body.Some? ==> s.ChunkData? || s.ChunkDataAlmostDone? || s.BodyIdentity? || s.BodyIdentityEof?)
    && (m.body.Some? ==> m.body.value <= p)
  }

  /** The data from the one mark that is set, up to p. */
  function Held(m: Marks, data: seq<Byte>, p: nat): seq<Seen>
    requires p <= |data|
  {
    match m
    case Marks(Some(q), None, None, None) => if q <= p then DataOf(FieldName, data[q..p]) else []
    case Marks(None, Some(q), None, None) => if q <= p then DataOf(FieldValue, data[q..p]) else []
    case Marks(None, None, Some(q), None) => if q <= p then DataOf(StatusText, data[q..p]) else []
    case Marks(None, None, None, Some(q)) => if q <= p then DataOf(Body, data[q..p]) else []
    case _ => []
  }

  lemma NothingHeld(m: Marks, s: State, data: seq<Byte>)
    requires MarksOk(s, m, 0)
    ensures Held(m, data, 0) == []
  {}

  /** MARK: sets the mark of a kind, if it is not set. */
  function Mark(m: Marks, kind: Kind, p: nat): Marks {
    match kind
    case FieldName => if m.field.Some? then m else m.(field := Some(p))
    case FieldValue => if m.value.Some? then m else m.(value := Some(p))
    case StatusText => if m.status.Some? then m else m.(status := Some(p))
    case Body => if m.body.Some? then m else m.(body := Some(p))
  }

  /** A mark that is set covers the bytes that follow. */
  lemma HeldGrows(m: Marks, kind: Kind, data: seq<Byte>, p: nat, q: nat, r: nat)
    requires p <= q <= |data| && (m == NO_MARKS || (r <= p && m == Mark(NO_MARKS, kind, r)))
    ensures Held(Mark(m, kind, p), data, q) == Held(m, data, p) + DataOf(kind, data[p..q])
  {
    if m == NO_MARKS {
    } else {
      assert data[r..q] == data[r..p] + data[p..q];
      DataOfAppend(kind, data[r..p], data[p..q]);
    }
  }

  lemma HeldOneMore(m: Marks, kind: Kind, data: seq<Byte>, p: nat, r: nat)
    requires p < |data| && (m == NO_MARKS || (r <= p && m == Mark(NO_MARKS, kind, r)))
    ensures Held(Mark(m, kind, p), data, p + 1) == Held(m, data, p) + [Data(kind, data[p])]
  {
    HeldGrows(m, kind, data, p, p + 1, r);
    assert DataOf(kind, data[p..p + 1]) == [Data(kind, data[p])];
  }

  // Several bytes at a time

  /** The states that only take bytes until something ends, and what n bytes do to the fields. */
  predicate Takes(k: Core, kind: Kind, n: nat, k': Core) {
    || (k.state == HeaderValue && k.header == General && kind == FieldValue && k' == k)
    || ((k.state == ChunkData || k.state == BodyIdentity) && n < k.length && kind == Body
       && k' == k.(length := k.length - n))
    || (k.state == BodyIdentityEof && kind == Body && k' == k)
  }

  /** The state takes the byte into data of the kind. */
  predicate Taking(k: Core, kind: Kind, ch: Byte) {
    k.errno == OK &&
    (|| (k.state == HeaderValue && k.header == General && kind == FieldValue && ch != CR && ch != LF)
     || ((k.state == ChunkData || k.state == BodyIdentity) && k.length > 1 && kind == Body)
     || (k.state == BodyIdentityEof && kind == Body))
  }

  function TakenFields(k: Core): Core {
    if (k.state == ChunkData || k.state == BodyIdentity) && k.length > 0 then k.(length := k.length - 1) else k
  }

  ghost predicate TakesBytes(step: Stepper) {
    forall k: Core, kind: Kind, ch: Byte {:trigger Taking(k, kind, ch)} ::
      Taking(k, kind, ch) ==> step(k, ch) == Keep(kind, Go(TakenFields(k), k.state))
  }

  lemma ValueTaken(k: Core, ch: Byte)
    requires k.errno == OK && k.state == HeaderValue && k.header == General && ch != CR && ch != LF
    ensures StepHeaderValue(k, ch) == Keep(FieldValue, Go(k, HeaderValue))
  {}

  lemma BodyTaken(k: Core, ch: Byte)
    requires ((k.state == ChunkData || k.state == BodyIdentity) && k.length > 1) || k.state == BodyIdentityEof
    ensures StepBody(k, ch) == Keep(Body, Go(TakenFields(k), k.state))
  {
    hide StepMessageDone;
  }

  /** Which function a state belongs to. */
  lemma StepByState(noBody: Core -> bool, k: Core, ch: Byte)
    ensures k.state == HeaderField ==> ParserStep(noBody)(k, ch) == StepHeaderField(k, ch)
    ensures k.state == HeaderValue ==> ParserStep(noBody)(k, ch) == StepHeaderValue(k, ch)
    ensures !ParsingHeader(k.state) ==> ParserStep(noBody)(k, ch) == StepBody(k, ch)
  {
    hide StepStatusLine, StepHeaderEnds, StepHeaderFieldStart, StepHeadersAlmostDone, StepChunkSize, StepBody;
    hide StepHeaderField;
    hide StepHeaderValue, StepHeadersDone;
    match k.state
    case ChunkData =>
    case ChunkDataAlmostDone =>
    case ChunkDataDone =>
    case BodyIdentity =>
    case BodyIdentityEof =>
    case MessageDone =>
    case _ =>
  }

  lemma ParserTakesBytes(noBody: Core -> bool)
    ensures TakesBytes(ParserStep(noBody))
  {
    hide Step, ParserStep, StepHeaderValue, StepBody, StepHeaderField;
    forall k: Core, kind: Kind, ch: Byte | Taking(k, kind, ch)
      ensures ParserStep(noBody)(k, ch) == Keep(kind, Go(TakenFields(k), k.state))
    {
      StepByState(noBody, k, ch);
      if k.state == HeaderValue {
        ValueTaken(k, ch);
      } else {
        BodyTaken(k, ch);
      }
    }
  }

  /** A byte that the parser is about to read. */
  predicate At(k: Core, ch: Byte) {
    k.errno == OK
  }

  /** The states with loops of their own. */
  ghost predicate LoopSteps(step: Stepper) {
    && TakesBytes(step)
    && (forall k: Core, ch: Byte {:trigger At(k, ch)} ::
          At(k, ch) && k.state == HeaderField ==> step(k, ch) == StepHeaderField(k, ch))
    && (forall k: Core, ch: Byte {:trigger At(k, ch)} ::
          At(k, ch) && k.state == HeaderValue ==> step(k, ch) == StepHeaderValue(k, ch))
    && (forall k: Core, ch: Byte {:trigger At(k, ch)} ::
          At(k, ch) && !ParsingHeader(k.state) ==> step(k, ch) == StepBody(k, ch))
  }

  lemma ParserLoopSteps(noBody: Core -> bool)
    ensures LoopSteps(ParserStep(noBody))
  {
    hide Step, ParserStep, StepHeaderValue, StepBody, StepHeaderField, TakesBytes, ParsingHeader;
    ParserTakesBytes(noBody);
    forall k: Core, ch: Byte
      ensures k.state == HeaderField ==> ParserStep(noBody)(k, ch) == StepHeaderField(k, ch)
      ensures k.state == HeaderValue ==> ParserStep(noBody)(k, ch) == StepHeaderValue(k, ch)
      ensures !ParsingHeader(k.state) ==> ParserStep(noBody)(k, ch) == StepBody(k, ch)
    {
      StepByState(noBody, k, ch);
    }
  }

  /** The bytes such a state takes may be taken at once. */
  lemma {:induction false} Skip(step: Stepper, t: Trace, kind: Kind, data: seq<Byte>, p: nat, q: nat, k': Core)
    requires TakesBytes(step) && p <= q <= |data| && t.Going() && Takes(t.core, kind, q - p, k')
    requires kind == FieldValue ==> forall i :: p <= i < q ==> data[i] != CR && data[i] != LF
    ensures Run(step, t, data, p)
            == Run(step, t.(core := k', held := t.held + DataOf(kind, data[p..q]), taken := t.taken + (q - p)), data, q)
    decreases q - p
  {
    hide Run, After;
    if p == q {
      assert t.held + DataOf(kind, data[p..q]) == t.held;
    } else {
      assert Taking(t.core, kind, data[p]);
      var t1 := t.(core := TakenFields(t.core), held := t.held + [Data(kind, data[p])], taken := t.taken + 1);
      RunByte(step, t, data, p, Keep(kind, Go(t1.core, t1.core.state)));
      TakenOne(t, t1.core, kind, data[p]);
      Skip(step, t1, kind, data, p + 1, q, k');
      DataFrom(t.held, kind, data, p, q);
    }
  }

  // A call, byte by byte, with what it counts

  /** A parser in the middle of a call, and how many bytes of the header it has come to. */
  datatype Point = Point(trace: Trace, count: nat)

  function CountAfter(n: nat, k: Core, o: Out): nat {
    if o.restart then 0 else if ParsingHeader(k.state) then n + 1 else n
  }

  /** The parser after the first q bytes of the data. */
  ghost function Progress(step: Stepper, from: Point, data: seq<Byte>, q: nat): Point
    requires q <= |data|
  {
    if q == 0 then from
    else
      var b := Progress(step, from, data, q - 1);
      if !b.trace.Going() then b
      else
        var o := step(b.trace.core, data[q - 1]);
        Point(After(b.trace, data[q - 1], o), CountAfter(b.count, b.trace.core, o))
  }

  ghost function CountAt(step: Stepper, from: Point, data: seq<Byte>, q: nat): nat
    requires q <= |data|
  {
    Progress(step, from, data, q).count
  }

  /** With the byte at q, if it is one of a header. */
  ghost function CountHere(step: Stepper, from: Point, data: seq<Byte>, q: nat): nat
    requires q <= |data|
  {
    var b := Progress(step, from, data, q);
    if ParsingHeader(b.trace.core.state) then b.count + 1 else b.count
  }

  /** Every byte from p on counts, or none does. */
  ghost predicate Rising(step: Stepper, from: Point, data: seq<Byte>, p: nat, q: nat) {
    && p <= q <= |data|
    && forall i :: p <= i <= q ==> CountAt(step, from, data, i) == CountAt(step, from, data, p) + (i - p)
  }

  ghost predicate Level(step: Stepper, from: Point, data: seq<Byte>, p: nat, q: nat) {
    && p <= q <= |data|
    && forall i :: p <= i <= q ==> CountAt(step, from, data, i) == CountAt(step, from, data, p)
  }

  /** The header never was longer than the limit. */
  ghost predicate Small(step: Stepper, from: Point, data: seq<Byte>, p: nat, q: nat) {
    q <= |data| && forall i :: p <= i <= q ==> CountAt(step, from, data, i) <= HTTP_MAX_HEADER_SIZE
  }

  predicate InItem(s: State) {
    s == HeaderField || s == HeaderValue
  }

  predicate InValue(t: Trace, header: HeaderState) {
    t.core.state == HeaderValue && t.core.header == header
  }

  lemma RisingCount(step: Stepper, from: Point, data: seq<Byte>, p: nat, q: nat)
    requires Rising(step, from, data, p, q)
    ensures CountAt(step, from, data, q) == CountAt(step, from, data, p) + (q - p)
  {}

  lemma LevelOne(step: Stepper, from: Point, data: seq<Byte>, p: nat, q: nat)
    requires Level(step, from, data, p, q) && q < |data|
    requires CountAt(step, from, data, q + 1) == CountAt(step, from, data, q)
    ensures Level(step, from, data, p, q + 1)
  {}

  lemma ProgressStart(step: Stepper, from: Point, data: seq<Byte>)
    ensures Progress(step, from, data, 0) == from
  {}

  lemma ProgressByte(step: Stepper, from: Point, data: seq<Byte>, p: nat, o: Out)
    requires p < |data|
    requires var b := Progress(step, from, data, p); b.trace.Going() && o == step(b.trace.core, data[p])
    ensures var b := Progress(step, from, data, p);
            Progress(step, from, data, p + 1) == Point(After(b.trace, data[p], o), CountAfter(b.count, b.trace.core, o))
  {}

  /** Nothing comes after an error or after the parser has left. */
  lemma {:induction false} ProgressStops(step: Stepper, from: Point, data: seq<Byte>, p: nat, q: nat)
    requires p <= q <= |data| && !Progress(step, from, data, p).trace.Going()
    ensures Progress(step, from, data, q) == Progress(step, from, data, p)
    decreases q - p
  {
    if p < q { ProgressStops(step, from, data, p, q - 1); }
  }

  lemma SmallStops(step: Stepper, from: Point, data: seq<Byte>, p: nat)
    requires p <= |data| && !Progress(step, from, data, p).trace.Going() && Small(step, from, data, 0, p)
    ensures Small(step, from, data, 0, |data|)
  {
    hide Progress;
    forall i | p <= i <= |data|
      ensures CountAt(step, from, data, i) == CountAt(step, from, data, p)
    {
      ProgressStops(step, from, data, p, i);
    }
  }

  /** From any point on the run is the same. */
  lemma {:induction false} ProgressIsRun(step: Stepper, from: Point, data: seq<Byte>, p: nat)
    requires p <= |data|
    ensures Run(step, Progress(step, from, data, p).trace, data, p) == Run(step, from.trace, data, 0)
  {
    if p > 0 {
      hide Run, After;
      ProgressIsRun(step, from, data, p - 1);
      var t := Progress(step, from, data, p - 1).trace;
      if t.Going() {
        RunByte(step, t, data, p - 1, step(t.core, data[p - 1]));
      } else {
        RunEnds(step, t, data, p - 1);
        RunEnds(step, t, data, p);
      }
    }
  }

  lemma {:induction false} CountBound(step: Stepper, from: Point, data: seq<Byte>, p: nat)
    requires p <= |data|
    ensures CountAt(step, from, data, p) <= from.count + p
  {
    hide After;
    if p > 0 { CountBound(step, from, data, p - 1); }
  }

  /** Bytes that are taken together: after one of them, and so after any number. */
  lemma TakeOne(step: Stepper, from: Point, data: seq<Byte>, p: nat, kind: Kind)
    requires TakesBytes(step) && p < |data| && Progress(step, from, data, p).trace.Going()
    requires Taking(Progress(step, from, data, p).trace.core, kind, data[p])
    ensures var t := Progress(step, from, data, p).trace;
            Progress(step, from, data, p + 1).trace
            == t.(core := TakenFields(t.core), held := t.held + [Data(kind, data[p])], taken := t.taken + 1)
    ensures CountAt(step, from, data, p + 1)
            == CountAt(step, from, data, p) + if kind == FieldValue then 1 else 0
  {
    hide Progress, After;
    var t := Progress(step, from, data, p).trace;
    var k := TakenFields(t.core);
    ProgressByte(step, from, data, p, Keep(kind, Go(k, t.core.state)));
    TakenOne(t, k, kind, data[p]);
  }

  lemma {:induction false} SkipProgress(step: Stepper, from: Point, data: seq<Byte>, p: nat, q: nat, kind: Kind,
                                        k': Core)
    requires TakesBytes(step) && p <= q <= |data| && Progress(step, from, data, p).trace.Going()
    requires Takes(Progress(step, from, data, p).trace.core, kind, q - p, k')
    requires kind == FieldValue ==> forall i :: p <= i < q ==> data[i] != CR && data[i] != LF
    ensures var t := Progress(step, from, data, p).trace;
            Progress(step, from, data, q).trace
            == t.(core := k', held := t.held + DataOf(kind, data[p..q]), taken := t.taken + (q - p))
    ensures kind == FieldValue ==> Rising(step, from, data, p, q)
    ensures kind == Body ==> Level(step, from, data, p, q)
    decreases q - p
  {
    hide Progress, TakesBytes;
    var t := Progress(step, from, data, p).trace;
    if p == q {
      assert t.held + DataOf(kind, data[p..q]) == t.held;
    } else {
      TakeOne(step, from, data, p, kind);
      SkipProgress(step, from, data, p + 1, q, kind, k');
      DataFrom(t.held, kind, data, p, q);
    }
  }

  /** The states whose bytes are handled one at a time. */
  predicate ByteWise(s: State) {
    !(s.HeaderField? || s.HeaderValue? || s.ChunkData? || s.BodyIdentity? || s.BodyIdentityEof?)
  }

  /** Marks follow the state, and nread starts again before every chunk size. */
  predicate MarksFollow(s: State, o: Out) {
    if o.core.errno != OK then !o.flush && o.notes == [] && o.core.errno != HeaderOverflow
    else
      && (o.core.state.HeaderField? <==> o.kind == Some(FieldName))
      && (o.core.state.HeaderValue? <==> o.kind == Some(FieldValue))
      && (o.core.state.Status? <==> o.kind == Some(StatusText))
      && o.kind != Some(Body)
      && (o.flush ==> o.kind == None && !MayHold(o.core.state))
      && (o.kind == None && !o.flush ==> !MayHold(s))
      && (o.kind.Some? ==> !MayHold(s) || (s.Status? && o.kind == Some(StatusText)))
      && (o.core.state.ChunkSizeStart? ==> o.restart)
  }

  lemma AlmostDoneMarks(s: State, noBody: Core -> bool, k: Core, ch: Byte)
    requires k.errno == OK && !MayHold(s)
    ensures MarksFollow(s, StepHeadersAlmostDone(noBody, k, ch))
  {
    hide ShouldKeepAlive;
  }

  lemma HeaderStartMarks(noBody: Core -> bool, k: Core, ch: Byte)
    requires k.errno == OK
    ensures k.state == HeaderFieldStart ==> MarksFollow(HeaderFieldStart, StepHeaderFieldStart(noBody, k, ch))
    ensures k.state == HeadersAlmostDone ==> MarksFollow(HeadersAlmostDone, StepHeadersAlmostDone(noBody, k, ch))
  {
    hide StepHeadersAlmostDone, IsToken, TokenOf;
    AlmostDoneMarks(HeaderFieldStart, noBody, k.(state := HeadersAlmostDone), ch);
    AlmostDoneMarks(HeadersAlmostDone, noBody, k, ch);
  }

  lemma HeaderValueStartMarks(s: State, k: Core, ch: Byte)
    requires !MayHold(s) && k.errno == OK
    ensures MarksFollow(s, StepHeaderValueStart(k, ch))
  {}

  lemma HeaderEndsMarks(noBody: Core -> bool, k: Core, ch: Byte)
    requires !MayHold(k.state) && k.errno == OK
    ensures MarksFollow(k.state, StepHeaderEnds(noBody, k, ch))
  {
    if k.state == DiscardLws || k.state == HeaderValueLws {
      HeaderStartMarks(noBody, Finished(k).(state := HeaderFieldStart), ch);
    }
    HeaderValueStartMarks(k.state, k, ch);
  }

  lemma StatusLineMarks(k: Core, ch: Byte)
    requires ParsingHeader(k.state) && ByteWise(k.state) && k.errno == OK
    ensures MarksFollow(k.state, StepStatusLine(k, ch))
  {
    hide Digit, StepStatus;
    StatusMarks(k, ch);
  }

  lemma StatusMarks(k: Core, ch: Byte)
    requires ParsingHeader(k.state) && ByteWise(k.state) && k.errno == OK
    ensures MarksFollow(k.state, StepStatus(k, ch))
  {
    hide Digit;
  }

  lemma BodyMarks(k: Core, ch: Byte)
    requires ByteWise(k.state) && k.errno == OK
    ensures !ParsingHeader(k.state) ==> MarksFollow(k.state, StepBody(k, ch))
    ensures !MayHold(k.state) ==> MarksFollow(k.state, StepChunkSize(k, ch))
  {
    hide Unhex, ShouldKeepAlive;
  }

  lemma HeadersDoneMarks(k: Core, ch: Byte)
    requires k.errno == OK
    ensures k.state == HeadersDone ==> MarksFollow(HeadersDone, StepHeadersDone(k, ch))
  {
    hide ShouldKeepAlive;
  }

  lemma StepMarks(noBody: Core -> bool, k: Core, ch: Byte)
    requires ByteWise(k.state) && k.errno == OK
    ensures MarksFollow(k.state, Step(noBody, k, ch))
  {
    hide StepStatusLine, StepHeaderEnds, StepHeaderFieldStart, StepHeadersAlmostDone, StepChunkSize, StepBody;
    hide MarksFollow, ShouldKeepAlive;
    HeadersDoneMarks(k, ch);
    match k.state
    case HeaderFieldStart => HeaderStartMarks(noBody, k, ch);
    case HeadersAlmostDone => HeaderStartMarks(noBody, k, ch);
    case HeadersDone =>
    case _ =>
      if !ParsingHeader(k.state) || InChunks(k.state) {
        BodyMarks(k, ch);
      } else {
        StatusLineMarks(k, ch);
        if !MayHold(k.state) { HeaderEndsMarks(noBody, k, ch); }
      }
  }

  /** The marks after a byte handled on its own, and what is then held. */
  lemma MarksAfter(s: State, m: Marks, o: Out, data: seq<Byte>, p: nat)
    requires p < |data| && MarksOk(s, m, p) && ByteWise(s) && MarksFollow(s, o) && o.core.errno == OK
    ensures var m' := if o.flush then NO_MARKS else if o.kind.Some? then Mark(m, o.kind.value, p) else m;
            && MarksOk(o.core.state, m', p + 1)
            && Held(m', data, p + 1)
               == if o.flush then [] else if o.kind.Some? then Held(m, data, p) + [Data(o.kind.value, data[p])]
                   else Held(m, data, p)
  {
    if o.kind.Some? {
      HeldOneMore(m, o.kind.value, data, p, if m.status.Some? then m.status.value else 0);
    }
  }

  lemma LastByte(k: Core, ch: Byte, o: Out)
    requires k.state == BodyIdentity && k.length == 0 && o == StepMessageDone(k.(state := MessageDone))
    ensures StepBody(k.(length := 1), ch) == Keep(Body, Pass(o)) && o.core.errno == k.errno
    ensures o.core.state == StartRes || o.core.state == Dead
  {}

  /** What a byte does in a name. */
  lemma FieldStep(step: Stepper, k: Core, ch: Byte)
    requires LoopSteps(step) && k.errno == OK && k.state == HeaderField
    ensures step(k, ch) == StepHeaderField(k, ch)
    ensures step(k, ch) == if IsToken(ch) then Keep(FieldName, Go(FieldChar(k, ch), HeaderField))
                           else if ch == ':' then Pass(Go(k, DiscardWs))
                           else Go(k.(errno := InvalidHeaderToken), HeaderField)
  {
    hide FieldChar;
    assert At(k, ch);
  }

  /** What the byte after a value does. */
  lemma ValueStep(step: Stepper, k: Core, ch: Byte)
    requires LoopSteps(step) && k.errno == OK && k.state == HeaderValue && (ch == CR || ch == LF)
    ensures step(k, ch) == Pass(Go(k, if ch == CR then HeaderAlmostDone else HeaderValueLws))
  {
    hide ValueChar;
    assert At(k, ch);
  }

  lemma LoopTakes(step: Stepper)
    requires LoopSteps(step)
    ensures TakesBytes(step)
  {}

  /** What a byte of a body does. */
  lemma BodyStep(step: Stepper, k: Core, ch: Byte)
    requires LoopSteps(step) && k.errno == OK && !ParsingHeader(k.state)
    ensures step(k, ch) == StepBody(k, ch)
  {
    assert At(k, ch);
  }

  lemma FieldCharKeeps(k: Core, ch: Byte)
    ensures FieldChar(k, ch) == k.(header := FieldChar(k, ch).header, index := FieldChar(k, ch).index)
  {}

  lemma LastOfChunk(k: Core, ch: Byte)
    requires k.state == ChunkData && k.length == 1
    ensures StepBody(k, ch) == Keep(Body, Go(k.(length := 0), ChunkDataAlmostDone))
  {}

  /** The last byte of a body. */
  lemma EndOfBody(step: Stepper, k: Core, log: seq<Seen>, data: seq<Byte>, p: nat, m: Marks, from: Point, o: Out)
    requires p < |data| && m.body.Some? && m.body.value <= p && MarksOk(BodyIdentity, m, p) && LoopSteps(step)
    requires k.state == BodyIdentity && k.errno == OK && k.length == 0 && o == StepMessageDone(k.(state := MessageDone))
    requires Progress(step, from, data, p).trace == Trace(k.(length := 1), log, Held(m, data, p), false, p)
    ensures o.core.errno == OK && Sound(o.core) && MarksOk(o.core.state, NO_MARKS, p + 1)
            && (o.core.state == StartRes || o.core.state == Dead)
    ensures Progress(step, from, data, p + 1).trace
            == Trace(o.core, log + Held(m, data, p + 1) + Notified(o.notes), [], o.exit, p + 1)
    ensures CountAt(step, from, data, p + 1) == CountAt(step, from, data, p)
  {
    hide Run, LoopSteps, StepBody, Held, Progress;
    var k1 := k.(length := 1);
    BodyStep(step, k1, data[p]);
    LastByte(k, data[p], o);
    ProgressByte(step, from, data, p, Keep(Body, Pass(o)));
    HeldOneMore(m, Body, data, p, m.body.value);
  }

  /** memchr, as the position of the first c in data[p..end]. */
  method Find(data: seq<Byte>, p: nat, end: nat, c: Byte) returns (r: Option<nat>)
    requires p <= end <= |data|
    ensures r.None? ==> forall i :: p <= i < end ==> data[i] != c
    ensures r.Some? ==> p <= r.value < end && data[r.value] == c && forall i :: p <= i < r.value ==> data[i] != c
  {
    for i := p to end
      invariant forall j :: p <= j < i ==> data[j] != c
    {
      if data[i] == c {
        return Some(i);
      }
    }
    return None;
  }

  class Parser {
    const noBody: Core -> bool
    var fields: Core
    var nread: nat
    var seen: seq<Seen>

    /** http_parser_init; noBody is how on_headers_complete will answer, the other callbacks return 0. */
    constructor (noBody: Core -> bool)
      ensures Valid() && fields == INITIAL && nread == 0 && seen == [] && this.noBody == noBody
    {
      this.noBody, fields, nread, seen := noBody, INITIAL, 0, [];
    }

    ghost predicate Valid()
      reads this
    {
      fields.errno == OK ==>
        Sound(fields) && nread <= HTTP_MAX_HEADER_SIZE && (fields.state == ChunkSizeStart ==> nread == 0)
    }

    /** The point this call is at, as a trace. */
    ghost function Now(data: seq<Byte>, p: nat, m: Marks): Trace
      requires p <= |data|
      reads this
    {
      Trace(fields, seen, Held(m, data, p), false, p)
    }

    /** This call has come to p as a run over the bytes before. */
    ghost predicate Reaches(step: Stepper, data: seq<Byte>, p: nat, m: Marks, from: Point)
      reads this
    {
      && p <= |data| && fields.errno == OK && Sound(fields) && MarksOk(fields.state, m, p)
      && Progress(step, from, data, p).trace == Now(data, p, m)
    }

    /** The call ended early at p, as the run does. */
    ghost predicate Ended(step: Stepper, data: seq<Byte>, p: nat, from: Point)
      reads this
    {
      var t := Progress(step, from, data, |data|).trace;
      && p <= |data| && fields == t.core && seen == t.log && p == t.taken && !t.Going()
      && (fields.errno == OK ==> Progress(step, from, data, p).trace == t)
    }

    /**
     * The header is found too long at q: the bytes of it before, and one more, are over the limit. The fields and
     * what the callbacks have seen are those of the run there.
     */
    ghost predicate OverflowAt(step: Stepper, data: seq<Byte>, q: nat, from: Point)
      requires q <= |data|
      reads this
    {
      var b := Progress(step, from, data, q);
      && b.trace.Going() && fields == b.trace.core.(errno := HeaderOverflow) && seen == b.trace.log
      && nread == b.count + 1
    }

    /** The same behind the CR of a value, which has been taken before its bytes are counted. */
    ghost predicate OverflowBehind(step: Stepper, data: seq<Byte>, q: nat, from: Point)
      requires q < |data|
      reads this
    {
      var b := Progress(step, from, data, q + 1);
      && data[q] == CR && b.trace.Going() && b.trace.core.state == HeaderAlmostDone
      && fields == b.trace.core.(errno := HeaderOverflow) && seen == b.trace.log && nread == b.count
    }

    /**
     * The same at the LF of a value without CR: the state is the next one already, the header state still that of
     * an earlier character, and the callback has not been called.
     */
    ghost predicate OverflowAtLf(step: Stepper, data: seq<Byte>, q: nat, from: Point)
      requires q < |data|
      reads this
    {
      var b := Progress(step, from, data, q);
      && data[q] == LF && b.trace.Going() && b.trace.core.state == HeaderValue && seen == b.trace.log
      && fields == b.trace.core.(errno := HeaderOverflow, state := HeaderAlmostDone, header := fields.header)
      && nread == b.count + 1
      && exists s: nat :: s <= q && InValue(Progress(step, from, data, s).trace, fields.header)
    }

    /** The same where more bytes than the limit were skipped in search of the end of a value. */
    ghost predicate OverflowSkipped(step: Stepper, data: seq<Byte>, q: nat, from: Point)
      requires q <= |data|
      reads this
    {
      var b := Progress(step, from, data, q);
      && q + HTTP_MAX_HEADER_SIZE < |data| && b.trace.Going() && InValue(b.trace, General)
      && fields == b.trace.core.(errno := HeaderOverflow) && seen == b.trace.log && nread == b.count + 1 + (|data| - q)
    }

    /** What a call leaves that finds the header too long, and returns `parsed`. */
    ghost predicate Overflowed(step: Stepper, data: seq<Byte>, parsed: nat, from: Point)
      reads this
    {
      && fields.errno == HeaderOverflow && nread > HTTP_MAX_HEADER_SIZE && parsed <= |data|
      && (|| OverflowAt(step, data, parsed, from)
          || (parsed < |data| && OverflowBehind(step, data, parsed, from))
          || (parsed < |data| && OverflowAtLf(step, data, parsed, from))
          || (parsed == |data| && exists q: nat :: q <= |data| && OverflowSkipped(step, data, q, from)))
    }

    /** A data callback: CALLBACK_DATA for the mark that is set. */
    method Deliver(data: seq<Byte>, p: nat, m: Marks)
      requires p <= |data|
      modifies this`seen
      ensures seen == old(seen) + Held(m, data, p)
    {
      seen := seen + Held(m, data, p);
    }

    /** COUNT_HEADER_SIZE */
    method CountHeaderSize(n: nat) returns (ok: bool)
      modifies this`nread, this`fields
      ensures nread == old(nread) + n && (ok <==> nread <= HTTP_MAX_HEADER_SIZE)
      ensures fields == if ok then old(fields) else old(fields).(errno := HeaderOverflow)
    {
      nread := nread + n;
      ok := nread <= HTTP_MAX_HEADER_SIZE;
      if !ok {
        fields := fields.(errno := HeaderOverflow);
      }
    }

    lemma TooLong(step: Stepper, data: seq<Byte>, q: nat, from: Point)
      requires q <= |data| && fields.errno == HeaderOverflow && nread == CountAt(step, from, data, q) + 1
      requires var t := Progress(step, from, data, q).trace;
               t.Going() && fields == t.core.(errno := HeaderOverflow) && seen == t.log
      requires nread > HTTP_MAX_HEADER_SIZE
      ensures Overflowed(step, data, q, from)
    {
      hide Progress;
    }

    /** A byte of a state without a loop of its own. */
    method StepByte(ghost step: Stepper, data: seq<Byte>, p: nat, m: Marks, ghost from: Point)
      returns (m': Marks, stop: bool, p': nat)
      requires Reaches(step, data, p, m, from) && p < |data| && ByteWise(fields.state)
      requires step == ParserStep(noBody) && (fields.state == ChunkSizeStart ==> nread == 1)
      requires nread == CountHere(step, from, data, p) <= HTTP_MAX_HEADER_SIZE
      modifies this
      ensures fields.errno != HeaderOverflow && p <= p' <= |data| && Valid()
      ensures fields.errno == OK ==> p' == p + 1 && nread == CountAt(step, from, data, p')
      ensures if stop then Ended(step, data, p', from) else Reaches(step, data, p', m', from)
    {
      hide Run, After, Step, Progress;
      StepKeepsSound(noBody, fields, data[p]);
      StepMarks(noBody, fields, data[p]);
      var o := Step(noBody, fields, data[p]);
      ProgressByte(step, from, data, p, o);
      m', stop, p' := Take(step, data, p, m, from, o);
    }

    /** The stores and callbacks of a byte that does what o says. */
    method Take(ghost step: Stepper, data: seq<Byte>, p: nat, m: Marks, ghost from: Point, o: Out)
      returns (m': Marks, stop: bool, p': nat)
      requires p < |data| && fields.errno == OK && ByteWise(fields.state) && MarksOk(fields.state, m, p)
      requires MarksFollow(fields.state, o) && SoundOut(o) && nread <= HTTP_MAX_HEADER_SIZE
      requires Progress(step, from, data, p + 1).trace == After(Now(data, p, m), data[p], o)
      requires CountAt(step, from, data, p + 1) == if o.restart then 0 else nread
      modifies this
      ensures fields.errno != HeaderOverflow && p <= p' <= |data| && Valid()
      ensures fields.errno == OK ==> p' == p + 1 && nread == CountAt(step, from, data, p')
      ensures if stop then Ended(step, data, p', from) else Reaches(step, data, p', m', from)
    {
      hide Run, Sound, MarksOk, Held, Mark, MayHold, Progress;
      ghost var s := fields.state;
      fields := o.core;
      if o.restart {
        nread := 0;
      }
      if fields.errno != OK {
        ProgressStops(step, from, data, p + 1, |data|);
        assert Notified(o.notes) == [] && seen + [] == seen;
        return m, true, p;
      }
      MarksAfter(s, m, o, data, p);
      m' := if o.kind.Some? then Mark(m, o.kind.value, p) else m;
      if o.flush {
        Deliver(data, p, m');
        m' := NO_MARKS;
      }
      seen := seen + Notified(o.notes);
      if o.exit {
        ProgressStops(step, from, data, p + 1, |data|);
      }
      return m', o.exit, p + 1;
    }

    /** Bytes that are taken together into data of one kind. */
    lemma SkipTo(step: Stepper, data: seq<Byte>, p: nat, q: nat, m: Marks, from: Point, kind: Kind, k': Core)
      requires Reaches(step, data, p, m, from) && TakesBytes(step) && p <= q <= |data|
      requires Takes(fields, kind, q - p, k')
      requires kind == FieldValue ==> forall i :: p <= i < q ==> data[i] != CR && data[i] != LF
      ensures Progress(step, from, data, q).trace == Trace(k', seen, Held(Mark(m, kind, p), data, q), false, q)
      ensures kind == FieldValue ==> Rising(step, from, data, p, q)
      ensures kind == Body ==> Level(step, from, data, p, q)
    {
      hide Run, Progress, TakesBytes;
      SkipProgress(step, from, data, p, q, kind, k');
      HeldGrows(m, kind, data, p, q,
        if m.value.Some? then m.value.value else if m.body.Some? then m.body.value else 0);
    }

    /** A byte taken into data that is marked already. */
    method TakeMarked(ghost step: Stepper, data: seq<Byte>, p: nat, m: Marks, ghost from: Point, kind: Kind, k: Core)
      requires Reaches(step, data, p, m, from) && p < |data|
      requires (kind == FieldName && fields.state == HeaderField) || (kind == FieldValue && fields.state == HeaderValue)
      requires step(fields, data[p]) == Keep(kind, Go(k, fields.state)) && k.state == fields.state && k.errno == OK
               && Sound(k)
      modifies this`fields
      ensures fields == k && Reaches(step, data, p + 1, m, from)
      ensures CountAt(step, from, data, p + 1) == CountAt(step, from, data, p) + 1
    {
      hide Run, Progress;
      ProgressByte(step, from, data, p, Keep(kind, Go(k, fields.state)));
      TakenOne(Now(data, p, m), k, kind, data[p]);
      HeldOneMore(m, kind, data, p, if kind == FieldName then m.field.value else m.value.value);
      fields := k;
    }

    /** A byte that ends the data marked, and goes to state s. */
    method EndMarked(ghost step: Stepper, data: seq<Byte>, p: nat, m: Marks, ghost from: Point, s: State)
      requires Reaches(step, data, p, m, from) && p < |data| && ParsingHeader(fields.state)
      requires step(fields, data[p]) == Pass(Go(fields, s)) && !MayHold(s) && Sound(fields.(state := s))
      modifies this`fields, this`seen
      ensures fields == old(fields).(state := s) && Reaches(step, data, p + 1, NO_MARKS, from)
      ensures CountAt(step, from, data, p + 1) == CountAt(step, from, data, p) + 1
    {
      hide Run, Progress;
      ProgressByte(step, from, data, p, Pass(Go(fields, s)));
      assert seen + Held(m, data, p) + Notified([]) == seen + Held(m, data, p);
      Deliver(data, p, m);
      fields := fields.(state := s);
    }

    /** A byte that is refused. */
    method Refuse(ghost step: Stepper, data: seq<Byte>, p: nat, m: Marks, ghost from: Point, e: Errno)
      requires Reaches(step, data, p, m, from) && p < |data| && e != OK
      requires step(fields, data[p]) == Go(fields.(errno := e), fields.state)
      modifies this`fields
      ensures fields == old(fields).(errno := e) && Ended(step, data, p, from)
    {
      hide Run, Progress;
      ProgressByte(step, from, data, p, Go(fields.(errno := e), fields.state));
      ProgressStops(step, from, data, p + 1, |data|);
      assert seen + Notified([]) == seen;
      fields := fields.(errno := e);
    }

    /** The loop over the characters of a name. */
    method TakeName(ghost step: Stepper, data: seq<Byte>, start: nat, m: Marks, ghost from: Point) returns (p: nat)
      requires Reaches(step, data, start, m, from) && start < |data| && fields.state == HeaderField
      requires LoopSteps(step)
      modifies this`fields
      ensures start <= p <= |data| && Reaches(step, data, p, m, from) && fields.state == HeaderField
      ensures p == |data| || !IsToken(data[p])
      ensures Rising(step, from, data, start, p)
    {
      hide Run, FieldChar, Held, LoopSteps, StepHeaderField, Progress;
      p := start;
      while p < |data| && IsToken(data[p])
        invariant start <= p <= |data|
        invariant Reaches(step, data, p, m, from) && fields.state == HeaderField
        invariant Rising(step, from, data, start, p)
      {
        HeaderFieldSound(fields, data[p]);
        FieldCharKeeps(fields, data[p]);
        FieldStep(step, fields, data[p]);
        TakeMarked(step, data, p, m, from, FieldName, FieldChar(fields, data[p]));
        p := p + 1;
      }
    }

    /** s_header_field: the loop over the characters of a name. */
    method ReadField(ghost step: Stepper, data: seq<Byte>, start: nat, m: Marks, ghost from: Point)
      returns (m': Marks, stop: bool, p: nat)
      requires Reaches(step, data, start, m, from) && start < |data| && fields.state == HeaderField
      requires LoopSteps(step) && nread == CountAt(step, from, data, start) + 1
      modifies this
      ensures fields.errno == HeaderOverflow ==> stop && Overflowed(step, data, p, from)
      ensures start <= p <= |data|
      ensures stop ==> fields.errno == HeaderOverflow || (fields.errno != OK && Ended(step, data, p, from))
      ensures !stop ==> start < p && Reaches(step, data, p, m', from) && Valid()
                        && Counted(step, data, start, p, from)
    {
      hide Run, Held, LoopSteps, StepHeaderField, Progress, Rising, Counted, CountAt, Overflowed, IsToken;
      p := TakeName(step, data, start, m, from);
      RisingCount(step, from, data, start, p);
      var ok := CountHeaderSize(p - start);
      if !ok {
        TooLong(step, data, p, from);
        return m, true, p;
      }
      if p == |data| {
        CountedCut(step, data, start, from);
        return m, false, p;
      }
      FieldStep(step, fields, data[p]);
      if data[p] == ':' {
        EndMarked(step, data, p, m, from, DiscardWs);
        CountedPast(step, data, start, p, from);
        return NO_MARKS, false, p + 1;
      }
      Refuse(step, data, p, m, from, InvalidHeaderToken);
      return m, true, p;
    }

    /** What is counted after a name or a value: its bytes, and at the end of the data one more. */
    ghost predicate Counted(step: Stepper, data: seq<Byte>, start: nat, p: nat, from: Point)
      requires p <= |data|
      reads this
    {
      && (nread == CountAt(step, from, data, p)
          || (p == |data| && nread == CountAt(step, from, data, p) + 1 && InItem(fields.state)))
      && Small(step, from, data, start, p)
    }

    /** The data ends in an item. */
    lemma CountedCut(step: Stepper, data: seq<Byte>, start: nat, from: Point)
      requires Rising(step, from, data, start, |data|) && InItem(fields.state)
      requires nread == CountAt(step, from, data, |data|) + 1 <= HTTP_MAX_HEADER_SIZE
      ensures Counted(step, data, start, |data|, from)
    {
      hide Progress;
    }

    /** The byte after an item counts, too. */
    lemma CountedPast(step: Stepper, data: seq<Byte>, start: nat, p: nat, from: Point)
      requires p < |data| && Rising(step, from, data, start, p) && nread <= HTTP_MAX_HEADER_SIZE
      requires nread == CountAt(step, from, data, p + 1) == CountAt(step, from, data, p) + 1
      ensures Counted(step, data, start, p + 1, from)
    {
      hide Progress;
    }

    /** s_header_value: the loop over the characters of a value. */
    method ReadValue(ghost step: Stepper, data: seq<Byte>, start: nat, m: Marks, ghost from: Point)
      returns (m': Marks, stop: bool, p: nat)
      requires Reaches(step, data, start, m, from) && start < |data| && fields.state == HeaderValue
      requires LoopSteps(step) && nread == CountAt(step, from, data, start) + 1
      modifies this
      ensures fields.errno == HeaderOverflow ==> stop && Overflowed(step, data, p, from)
      ensures start <= p <= |data|
      ensures stop ==> fields.errno == HeaderOverflow || (fields.errno != OK && Ended(step, data, p, from))
      ensures !stop ==> start < p && Reaches(step, data, p, m', from) && Valid()
                        && Counted(step, data, start, p, from)
    {
      hide Run, After, Progress, LoopSteps, Overflowed;
      var header := fields.header;
      assert InValue(Progress(step, from, data, start).trace, header);
      stop, p := ReadValueChars(step, data, start, m, from);
      if stop {
        return m, true, p;
      }
      m', stop, p := EndValue(step, data, start, p, m, header, from);
    }

    /** Stops at the end of the value, at the end of the data, or at a character that is refused. */
    method ReadValueChars(ghost step: Stepper, data: seq<Byte>, start: nat, m: Marks, ghost from: Point)
      returns (stop: bool, p: nat)
      requires Reaches(step, data, start, m, from) && start < |data| && fields.state == HeaderValue
      requires LoopSteps(step)
      modifies this`fields
      ensures start <= p <= |data| && fields.errno != HeaderOverflow
      ensures stop ==> Ended(step, data, p, from) && fields.errno != OK
      ensures !stop ==> fields.errno == OK && fields.state == HeaderValue
                        && (p < |data| ==> data[p] == CR || data[p] == LF)
      ensures !stop ==> AtEnd(step, data, start, p, m, from)
    {
      hide Run, After, Progress, LoopSteps;
      p := start;
      while p < |data| && data[p] != CR && data[p] != LF
        invariant start <= p <= |data| && fields.errno == OK && fields.state == HeaderValue
        invariant AtEnd(step, data, start, p, m, from)
        decreases |data| - p
      {
        if fields.header == General {
          p := SkipGeneral(step, data, start, p, m, from);
        } else {
          stop := ReadValueChar(step, data, p, m, from);
          if stop {
            return true, p;
          }
          p := p + 1;
        }
      }
      return false, p;
    }

    /** The value has been read up to p, or skipped up to the end of the data. */
    ghost predicate AtEnd(step: Stepper, data: seq<Byte>, start: nat, p: nat, m: Marks, from: Point)
      reads this
    {
      || (Reaches(step, data, p, m, from) && Rising(step, from, data, start, p))
      || (p == |data| && Skipped(step, data, start, m, from))
    }

    ghost predicate Skipped(step: Stepper, data: seq<Byte>, start: nat, m: Marks, from: Point)
      reads this
    {
      && fields.state == HeaderValue && fields.header == General
      && exists q: nat ::
           && start <= q && q + HTTP_MAX_HEADER_SIZE < |data|
           && Reaches(step, data, q, m, from) && Rising(step, from, data, start, q)
    }

    /** One character of a value that is read. */
    method ReadValueChar(ghost step: Stepper, data: seq<Byte>, p: nat, m: Marks, ghost from: Point)
      returns (stop: bool)
      requires Reaches(step, data, p, m, from) && p < |data| && fields.state == HeaderValue
      requires data[p] != CR && data[p] != LF && LoopSteps(step)
      modifies this`fields
      ensures fields.errno != HeaderOverflow
      ensures stop ==> Ended(step, data, p, from) && fields.errno != OK
      ensures !stop ==> Reaches(step, data, p + 1, m, from) && fields.state == HeaderValue
                        && CountAt(step, from, data, p + 1) == CountAt(step, from, data, p) + 1
    {
      hide Run, After, Progress;
      HeaderValueSound(fields, data[p]);
      assert At(fields, data[p]);
      var k := ValueChar(fields, data[p]);
      if k.errno != OK {
        Refuse(step, data, p, m, from, InvalidContentLength);
        return true;
      }
      TakeMarked(step, data, p, m, from, FieldValue, k);
      return false;
    }

    /** What s_header_value does where its loop ends; h_state is written back at a CR and at the end of the data. */
    method EndValue(ghost step: Stepper, data: seq<Byte>, start: nat, q: nat, m: Marks, header: HeaderState,
                    ghost from: Point)
      returns (m': Marks, stop: bool, p: nat)
      requires start <= q <= |data| && start < |data| && fields.errno == OK && fields.state == HeaderValue
      requires q < |data| ==> data[q] == CR || data[q] == LF
      requires AtEnd(step, data, start, q, m, from)
      requires LoopSteps(step) && nread == CountAt(step, from, data, start) + 1
      requires InValue(Progress(step, from, data, start).trace, header)
      modifies this
      ensures fields.errno == HeaderOverflow ==> stop && Overflowed(step, data, p, from)
      ensures start <= p <= |data|
      ensures stop ==> fields.errno == HeaderOverflow
      ensures !stop ==> start < p && Reaches(step, data, p, m', from) && Valid()
                        && Counted(step, data, start, p, from)
    {
      hide Run, After, LoopSteps, Held, Progress, Rising, Counted, CountAt, Skipped, Overflowed;
      if q == |data| {
        stop := EndOfData(step, data, start, m, from);
        return m, stop, q;
      }
      if data[q] == LF {
        stop := EndAtLf(step, data, start, q, m, header, from);
      } else {
        stop := EndAtCr(step, data, start, q, m, from);
      }
      return NO_MARKS, stop, if stop then q else q + 1;
    }

    method EndOfData(ghost step: Stepper, data: seq<Byte>, start: nat, m: Marks, ghost from: Point) returns (stop: bool)
      requires start < |data| && fields.errno == OK && fields.state == HeaderValue
      requires AtEnd(step, data, start, |data|, m, from) && nread == CountAt(step, from, data, start) + 1
      modifies this
      ensures if stop then fields.errno == HeaderOverflow && Overflowed(step, data, |data|, from)
              else Reaches(step, data, |data|, m, from) && Valid() && Counted(step, data, start, |data|, from)
    {
      hide Run, After, Held, Progress, Rising, Counted, CountAt, Sound, MarksOk;
      ghost var at: nat := |data|;
      if !Reaches(step, data, |data|, m, from) || !Rising(step, from, data, start, |data|) {
        at :| start <= at && at + HTTP_MAX_HEADER_SIZE < |data| && Reaches(step, data, at, m, from)
              && Rising(step, from, data, start, at);
      }
      RisingCount(step, from, data, start, at);
      var ok := CountHeaderSize(|data| - start);
      if ok {
        CountedCut(step, data, start, from);
      } else if at == |data| {
        TooLong(step, data, |data|, from);
      } else {
        TooMuch(step, data, at, from);
      }
      stop := !ok;
    }

    lemma TooMuch(step: Stepper, data: seq<Byte>, q: nat, from: Point)
      requires q + HTTP_MAX_HEADER_SIZE < |data| && fields.errno == HeaderOverflow
      requires nread == CountAt(step, from, data, q) + 1 + (|data| - q)
      requires var t := Progress(step, from, data, q).trace;
               && t.Going() && InValue(t, General)
               && fields == t.core.(errno := HeaderOverflow) && seen == t.log
      ensures Overflowed(step, data, |data|, from)
    {
      hide Progress;
      assert OverflowSkipped(step, data, q, from);
    }

    method EndAtLf(ghost step: Stepper, data: seq<Byte>, start: nat, q: nat, m: Marks, header: HeaderState,
                   ghost from: Point)
      returns (stop: bool)
      requires start <= q < |data| && data[q] == LF && fields.state == HeaderValue
      requires Reaches(step, data, q, m, from) && Rising(step, from, data, start, q)
      requires LoopSteps(step) && nread == CountAt(step, from, data, start) + 1
      requires InValue(Progress(step, from, data, start).trace, header)
      modifies this
      ensures if stop then fields.errno == HeaderOverflow && Overflowed(step, data, q, from)
              else Reaches(step, data, q + 1, NO_MARKS, from) && Valid() && Counted(step, data, start, q + 1, from)
    {
      hide Run, After, Held, Progress, Rising, Counted, CountAt, LoopSteps;
      RisingCount(step, from, data, start, q);
      ValueStep(step, fields, data[q]);
      var ok := CountHeaderSize(q - start);
      if !ok {
        fields := fields.(state := HeaderAlmostDone, header := header);
        TooLongAtLf(step, data, start, q, from);
        return true;
      }
      EndMarked(step, data, q, m, from, HeaderValueLws);
      CountedPast(step, data, start, q, from);
      return false;
    }

    lemma TooLongAtLf(step: Stepper, data: seq<Byte>, s: nat, q: nat, from: Point)
      requires s <= q < |data| && data[q] == LF && nread == CountAt(step, from, data, q) + 1 > HTTP_MAX_HEADER_SIZE
      requires var t := Progress(step, from, data, q).trace;
               && t.Going() && t.core.state == HeaderValue && seen == t.log
               && fields == t.core.(errno := HeaderOverflow, state := HeaderAlmostDone, header := fields.header)
      requires InValue(Progress(step, from, data, s).trace, fields.header)
      ensures Overflowed(step, data, q, from)
    {
      hide Progress;
      assert OverflowAtLf(step, data, q, from);
    }

    method EndAtCr(ghost step: Stepper, data: seq<Byte>, start: nat, q: nat, m: Marks, ghost from: Point)
      returns (stop: bool)
      requires start <= q < |data| && data[q] == CR && fields.state == HeaderValue
      requires Reaches(step, data, q, m, from) && Rising(step, from, data, start, q)
      requires LoopSteps(step) && nread == CountAt(step, from, data, start) + 1
      modifies this
      ensures if stop then fields.errno == HeaderOverflow && Overflowed(step, data, q, from)
              else Reaches(step, data, q + 1, NO_MARKS, from) && Valid() && Counted(step, data, start, q + 1, from)
    {
      hide Run, After, Held, Progress, Rising, Counted, CountAt, LoopSteps;
      RisingCount(step, from, data, start, q);
      ValueStep(step, fields, data[q]);
      EndMarked(step, data, q, m, from, HeaderAlmostDone);
      var ok := CountHeaderSize(q - start);
      if ok {
        CountedPast(step, data, start, q, from);
      } else {
        TooLongBehind(step, data, q, from);
      }
      stop := !ok;
    }

    lemma TooLongBehind(step: Stepper, data: seq<Byte>, q: nat, from: Point)
      requires q < |data| && data[q] == CR && nread == CountAt(step, from, data, q + 1) > HTTP_MAX_HEADER_SIZE
      requires var t := Progress(step, from, data, q + 1).trace;
               && t.Going() && t.core.state == HeaderAlmostDone && seen == t.log
               && fields == t.core.(errno := HeaderOverflow)
      ensures Overflowed(step, data, q, from)
    {
      hide Progress;
      assert OverflowBehind(step, data, q, from);
    }

    /**
     * The search for the end of a value that needs no reading. It looks at no more than
     * HTTP_MAX_HEADER_SIZE bytes, and if there is no end in them skips everything.
     */
    method SkipGeneral(ghost step: Stepper, data: seq<Byte>, ghost start: nat, p: nat, m: Marks, ghost from: Point)
      returns (q: nat)
      requires Reaches(step, data, p, m, from) && start <= p < |data| && Rising(step, from, data, start, p)
      requires fields.state == HeaderValue && fields.header == General && LoopSteps(step)
      requires data[p] != CR && data[p] != LF
      ensures p < q <= |data| && AtEnd(step, data, start, q, m, from)
    {
      hide Run, After, Progress, LoopSteps, TakesBytes;
      LoopTakes(step);
      var limit := if |data| - p < HTTP_MAX_HEADER_SIZE then |data| - p else HTTP_MAX_HEADER_SIZE;
      var cr := Find(data, p, p + limit, CR);
      var lf := Find(data, p, p + limit, LF);
      if cr.Some? {
        q := if lf.Some? && cr.value >= lf.value then lf.value else cr.value;
      } else if lf.Some? {
        q := lf.value;
      } else {
        q := |data|;
      }
      if q == |data| && q - p > HTTP_MAX_HEADER_SIZE {
        assert Skipped(step, data, start, m, from);
      } else {
        SkipTo(step, data, p, q, m, from, FieldValue, fields);
      }
    }

    /** Bytes of a body that does not end with them. */
    method TakeBody(ghost step: Stepper, data: seq<Byte>, p: nat, m: Marks, ghost from: Point, toRead: nat)
      requires Reaches(step, data, p, m, from) && LoopSteps(step)
      requires (fields.state == ChunkData || fields.state == BodyIdentity) && toRead < fields.length
      requires 0 < toRead && p + toRead <= |data|
      modifies this`fields
      ensures fields == old(fields).(length := old(fields).length - toRead)
      ensures Reaches(step, data, p + toRead, Mark(m, Body, p), from) && Level(step, from, data, p, p + toRead)
    {
      hide Run, Held, LoopSteps, TakesBytes, Progress;
      LoopTakes(step);
      SkipTo(step, data, p, p + toRead, m, from, Body, fields.(length := fields.length - toRead));
      fields := fields.(length := fields.length - toRead);
    }

    /** The bytes of a body up to its last one, or that of its chunk. */
    method TakeRest(ghost step: Stepper, data: seq<Byte>, p0: nat, m0: Marks, ghost from: Point)
      returns (m: Marks, stop: bool)
      requires Reaches(step, data, p0, m0, from) && LoopSteps(step)
      requires (fields.state == ChunkData || fields.state == BodyIdentity) && p0 + fields.length <= |data|
      modifies this`fields, this`seen
      ensures fields.errno == OK && Sound(fields) && fields.state != ChunkSizeStart && !InItem(fields.state)
      ensures Level(step, from, data, p0, p0 + old(fields).length)
      ensures if stop then Ended(step, data, p0 + old(fields).length, from)
              else Reaches(step, data, p0 + old(fields).length, m, from)
    {
      hide Run, Held, LoopSteps, TakesBytes, Progress, Level, Rising, CountAt;
      LoopTakes(step);
      var p := p0 + fields.length - 1;
      m := Mark(m0, Body, p0);
      SkipTo(step, data, p0, p, m0, from, Body, fields.(length := 1));
      fields := fields.(length := 0);
      if fields.state == ChunkData {
        EndChunk(step, data, p, m, from);
        stop := false;
      } else {
        stop := EndBody(step, data, p, m, from);
        m := NO_MARKS;
      }
      LevelOne(step, from, data, p0, p);
    }

    /** s_body_identity, s_chunk_data: as much of the body as there is. */
    method ReadBody(ghost step: Stepper, data: seq<Byte>, p0: nat, m0: Marks, ghost from: Point)
      returns (m: Marks, stop: bool, p: nat)
      requires Reaches(step, data, p0, m0, from) && p0 < |data|
               && (fields.state == ChunkData || fields.state == BodyIdentity)
      requires LoopSteps(step)
      modifies this`fields, this`seen
      ensures p0 < p <= |data| && fields.errno == OK && Sound(fields)
      ensures fields.state != ChunkSizeStart && !InItem(fields.state) && Level(step, from, data, p0, p)
      ensures if stop then Ended(step, data, p, from) else Reaches(step, data, p, m, from)
    {
      hide Run, After, Held, LoopSteps, Ended, Progress;
      assert 0 < fields.length < ULLONG_MAX;
      var toRead := if fields.length < |data| - p0 then fields.length else |data| - p0;
      p := p0 + toRead;
      if toRead < fields.length {
        TakeBody(step, data, p0, m0, from, toRead);
        m := Mark(m0, Body, p0);
        stop := false;
      } else {
        m, stop := TakeRest(step, data, p0, m0, from);
      }
    }

    /** The last byte of a chunk. */
    method EndChunk(ghost step: Stepper, data: seq<Byte>, p: nat, m: Marks, ghost from: Point)
      requires fields.errno == OK && fields.length == 0 && fields.flags.chunked && p < |data|
      requires fields.state == ChunkData && m.body.Some? && m.body.value <= p && MarksOk(ChunkData, m, p)
               && LoopSteps(step)
      requires Progress(step, from, data, p).trace == Trace(fields.(length := 1), seen, Held(m, data, p), false, p)
      modifies this`fields
      ensures Reaches(step, data, p + 1, m, from) && fields.state == ChunkDataAlmostDone
      ensures CountAt(step, from, data, p + 1) == CountAt(step, from, data, p)
    {
      hide Run, StepBody, Held, LoopSteps, Progress;
      ghost var k := fields.(length := 1);
      BodyStep(step, k, data[p]);
      LastOfChunk(k, data[p]);
      ProgressByte(step, from, data, p, StepBody(k, data[p]));
      HeldOneMore(m, Body, data, p, m.body.value);
      assert seen + Notified([]) == seen;
      fields := fields.(state := ChunkDataAlmostDone);
    }

    /** The last byte of a body: it is delivered at once, and the message is done. */
    method EndBody(ghost step: Stepper, data: seq<Byte>, p: nat, m: Marks, ghost from: Point) returns (stop: bool)
      requires fields.errno == OK && fields.length == 0 && p < |data|
      requires fields.state == BodyIdentity && m.body.Some? && m.body.value <= p && MarksOk(BodyIdentity, m, p)
               && LoopSteps(step)
      requires Progress(step, from, data, p).trace == Trace(fields.(length := 1), seen, Held(m, data, p), false, p)
      modifies this`fields, this`seen
      ensures fields.errno == OK && Sound(fields) && (fields.state == StartRes || fields.state == Dead)
      ensures CountAt(step, from, data, p + 1) == CountAt(step, from, data, p)
      ensures if stop then Ended(step, data, p + 1, from) else Reaches(step, data, p + 1, NO_MARKS, from)
    {
      hide Run, Progress, LoopSteps;
      var o := StepMessageDone(fields.(state := MessageDone));
      EndOfBody(step, fields, seen, data, p, m, from, o);
      Deliver(data, p + 1, m);
      seen := seen + Notified(o.notes);
      fields := o.core;
      stop := o.exit;
      if stop {
        ProgressStops(step, from, data, p + 1, |data|);
      }
    }

    /** s_body_identity_eof: the rest of the data. */
    method ReadToEnd(ghost step: Stepper, data: seq<Byte>, p: nat, m: Marks, ghost from: Point) returns (m': Marks)
      requires Reaches(step, data, p, m, from) && fields.state == BodyIdentityEof && LoopSteps(step)
      ensures Reaches(step, data, |data|, m', from) && Level(step, from, data, p, |data|)
    {
      hide Run, After, Progress, LoopSteps, TakesBytes;
      LoopTakes(step);
      SkipTo(step, data, p, |data|, m, from, Body, fields);
      m' := Mark(m, Body, p);
    }

    /** http_parser_execute without data: the end of the stream. */
    method End() returns (parsed: nat)
      requires Valid() && fields.errno == OK
      modifies this`fields, this`seen
      ensures Valid() && fields.errno != HeaderOverflow
      ensures var t := EndOfStream(Trace(old(fields), old(seen), [], false, 0)); fields == t.core && seen == t.log
      ensures parsed == if fields.errno == OK then 0 else 1
    {
      if fields.state == BodyIdentityEof {
        seen := seen + [Notify(MessageComplete)];
        return 0;
      } else if fields.state == Dead || fields.state == StartRes {
        return 0;
      }
      fields := fields.(errno := InvalidEofState);
      return 1;
    }

    /** One round of the loop of http_parser_execute. */
    method Round(ghost step: Stepper, data: seq<Byte>, p: nat, m: Marks, ghost from: Point)
      returns (m': Marks, stop: bool, p': nat)
      requires Valid() && Reaches(step, data, p, m, from) && p < |data| && nread == CountAt(step, from, data, p)
      requires step == ParserStep(noBody) && LoopSteps(step)
      modifies this
      ensures p <= p' <= |data|
      ensures fields.errno == HeaderOverflow ==> Overflowed(step, data, p', from)
      ensures fields.errno != HeaderOverflow ==>
                && Valid() && (!stop ==> p < p')
                && (if stop then Ended(step, data, p', from) else Reaches(step, data, p', m', from))
                && (fields.errno == OK ==> Counted(step, data, p, p', from))
    {
      hide Run, After, Progress, Held, LoopSteps, ParserStep, Sound, MarksOk, Counted;
      if ParsingHeader(fields.state) {
        var ok := CountHeaderSize(1);
        if !ok {
          assert OverflowAt(step, data, p, from);
          return m, true, p;
        }
      }
      if fields.state == HeaderField {
        m', stop, p' := ReadField(step, data, p, m, from);
      } else if fields.state == HeaderValue {
        m', stop, p' := ReadValue(step, data, p, m, from);
      } else if fields.state == ChunkData || fields.state == BodyIdentity {
        m', stop, p' := ReadBody(step, data, p, m, from);
        CountedLevel(step, data, p, p', from);
      } else if fields.state == BodyIdentityEof {
        m' := ReadToEnd(step, data, p, m, from);
        stop, p' := false, |data|;
        CountedLevel(step, data, p, p', from);
      } else {
        m', stop, p' := StepByte(step, data, p, m, from);
        if fields.errno == OK { CountedByte(step, data, p, from); }
      }
    }

    lemma CountedLevel(step: Stepper, data: seq<Byte>, p: nat, p': nat, from: Point)
      requires p <= p' <= |data| && Level(step, from, data, p, p')
      requires nread == CountAt(step, from, data, p) <= HTTP_MAX_HEADER_SIZE
      ensures Counted(step, data, p, p', from)
    {
      hide Progress;
      assert CountAt(step, from, data, p') == CountAt(step, from, data, p);
    }

    lemma CountedByte(step: Stepper, data: seq<Byte>, p: nat, from: Point)
      requires p < |data| && CountAt(step, from, data, p) <= HTTP_MAX_HEADER_SIZE
      requires nread == CountAt(step, from, data, p + 1) <= HTTP_MAX_HEADER_SIZE
      ensures Counted(step, data, p, p + 1, from)
    {
      hide Progress;
    }

    /** The loop of http_parser_execute, and the callbacks for data that is still open after it. */
    method ReadAll(ghost step: Stepper, data: seq<Byte>, m0: Marks, ghost from: Point) returns (p: nat)
      requires Valid() && Reaches(step, data, 0, m0, from) && nread == from.count
      requires step == ParserStep(noBody) && LoopSteps(step)
      modifies this
      ensures Valid()
      ensures if fields.errno == HeaderOverflow then Overflowed(step, data, p, from)
              else
                var t := Finish(Progress(step, from, data, |data|).trace);
                && fields == t.core && seen == t.log && p == t.taken
                && (fields.errno == OK ==> Counted(step, data, 0, |data|, from))
    {
      hide Run, After, Progress, Overflowed, Held, LoopSteps, ParserStep, Sound, MarksOk;
      p := 0;
      var m, stop := m0, false;
      assert CountAt(step, from, data, 0) == nread by { ProgressStart(step, from, data); }
      while p < |data| && !stop
        invariant p <= |data| && Valid() && fields.errno != HeaderOverflow
        invariant if stop then Ended(step, data, p, from) else Reaches(step, data, p, m, from)
        invariant fields.errno == OK ==> Counted(step, data, 0, p, from)
        decreases |data| - p, !stop
      {
        m, stop, p := Round(step, data, p, m, from);
        if fields.errno == HeaderOverflow {
          return;
        }
      }
      if !stop {
        Deliver(data, p, m);
      } else if fields.errno == OK {
        ProgressStops(step, from, data, p, |data|);
        SmallStops(step, from, data, p);
      }
    }

    /**
     * http_parser_execute. nread counts the bytes of the header so far, with perhaps one more for every call that
     * ended inside a name or a value; if no error is reported there never were more of them than the limit.
     */
    method Execute(data: seq<Byte>) returns (parsed: nat)
      requires Valid()
      modifies this
      ensures Valid()
      ensures old(fields).errno != OK ==>
                parsed == 0 && fields == old(fields) && seen == old(seen) && nread == old(nread)
      ensures old(fields).errno == OK && fields.errno == HeaderOverflow ==>
                && old(nread) + |data| >= HTTP_MAX_HEADER_SIZE
                && Overflowed(ParserStep(noBody), data, parsed,
                              Point(Trace(old(fields), old(seen), [], false, 0), old(nread)))
      ensures old(fields).errno == OK && fields.errno != HeaderOverflow ==>
                var t := Call(ParserStep(noBody), Trace(old(fields), old(seen), [], false, 0), data);
                fields == t.core && seen == t.log && (data != [] ==> parsed == t.taken)
      ensures old(fields).errno == OK && fields.errno == OK ==>
                Counted(ParserStep(noBody), data, 0, |data|,
                        Point(Trace(old(fields), old(seen), [], false, 0), old(nread)))
    {
      if fields.errno != OK {
        return 0;
      }
      ghost var step, from := ParserStep(noBody), Point(Trace(fields, seen, [], false, 0), nread);
      ProgressStart(step, from, data);
      if data == [] {
        parsed := End();
        return;
      }
      var m := Marks(
        if fields.state == HeaderField then Some(0) else None,
        if fields.state == HeaderValue then Some(0) else None,
        if fields.state == Status then Some(0) else None,
        None);
      ParserLoopSteps(noBody);
      NothingHeld(m, fields.state, data);
      parsed := ReadAll(step, data, m, from);
      ProgressIsRun(step, from, data, |data|);
      if fields.errno == HeaderOverflow {
        OverflowLong(step, data, parsed, from);
      }
    }

    /** Every byte counts once at most, but for one more where the count is checked. */
    lemma OverflowLong(step: Stepper, data: seq<Byte>, parsed: nat, from: Point)
      requires Overflowed(step, data, parsed, from)
      ensures from.count + |data| >= HTTP_MAX_HEADER_SIZE
    {
      hide Progress;
      if parsed == |data| && exists q: nat :: q <= |data| && OverflowSkipped(step, data, q, from) {
        var q: nat :| q <= |data| && OverflowSkipped(step, data, q, from);
        CountBound(step, from, data, q);
      } else {
        CountBound(step, from, data, parsed);
        if parsed < |data| { CountBound(step, from, data, parsed + 1); }
      }
    }
  }
}
