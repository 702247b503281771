/** Runs of the parser over a stream, the calls that deliver it, and where the stream may be cut. */
module HttpRuns {
  import opened Bytes
  import opened HttpParser

  /**
   * A parser in the middle of a call: its fields, what the callbacks have seen, the bytes from the
   * mark on that no callback has seen yet, whether it left early for another protocol, and how
   * many bytes it has taken.
   */
  datatype Trace = Trace(core: Core, log: seq<Seen>, held: seq<Seen>, exited: bool, taken: nat) {
    predicate Going() {
      core.errno == OK && !exited
    }
  }

  /** What each byte does, as a function of the fields. */
  type Stepper = (Core, Byte) -> Out

  /** The parser's, when on_headers_complete answers as noBody says. */
  function ParserStep(noBody: Core -> bool): Stepper {
    (k, ch) => Step(noBody, k, ch)
  }

  function Notified(notes: seq<Note>): (r: seq<Seen>)
    ensures |r| == |notes| && forall i :: 0 <= i < |notes| ==> r[i] == Notify(notes[i])
  {
    if notes == [] then [] else [Notify(notes[0])] + Notified(notes[1..])
  }

  function StepTrace(step: Stepper, t: Trace, ch: Byte): Trace {
    After(t, ch, step(t.core, ch))
  }

  /** A parser after a byte that does what o says. */
  function After(t: Trace, ch: Byte, o: Out): Trace {
    var held := if o.kind.Some? then t.held + [Data(o.kind.value, ch)] else t.held;
    Trace(o.core, (if o.flush then t.log + held else t.log) + Notified(o.notes), if o.flush then [] else held,
          o.exit, if o.core.errno == OK then t.taken + 1 else t.taken)
  }

  /** A run over data[p..]: until a byte is refused or the parser leaves. */
  function Run(step: Stepper, t: Trace, data: seq<Byte>, p: nat): (r: Trace)
    decreases |data| - p
  {
    if p >= |data| || !t.Going() then t
    else Run(step, StepTrace(step, t, data[p]), data, p + 1)
  }

  /** The end of a call: the bytes held are delivered, unless the call ended early. */
  function Finish(t: Trace): Trace {
    if t.Going() then t.(log := t.log + t.held, held := []) else t.(held := [])
  }

  /** A call of http_parser_execute without data: the end of the stream. */
  function EndOfStream(t: Trace): Trace {
    match t.core.state
    case BodyIdentityEof => t.(log := t.log + [Notify(MessageComplete)])
    case Dead => t
    case StartRes => t
    case _ => t.(core := t.core.(errno := InvalidEofState))
  }

  /** A call of http_parser_execute */
  function Call(step: Stepper, t: Trace, data: seq<Byte>): Trace {
    if t.core.errno != OK then t
    else if data == [] then EndOfStream(t)
    else Finish(Run(step, t.(held := [], exited := false), data, 0))
  }

  function Calls(step: Stepper, t: Trace, pieces: seq<seq<Byte>>): Trace
    decreases |pieces|
  {
    if pieces == [] then t else Calls(step, Call(step, t, pieces[0]), pieces[1..])
  }

  function Joined(pieces: seq<seq<Byte>>): seq<Byte>
    decreases |pieces|
  {
    if pieces == [] then [] else pieces[0] + Joined(pieces[1..])
  }

  // Small steps of a run

  function DataOf(kind: Kind, s: seq<Byte>): (r: seq<Seen>)
    ensures |r| == |s| && forall i :: 0 <= i < |s| ==> r[i] == Data(kind, s[i])
  {
    seq(|s|, i requires 0 <= i < |s| => Data(kind, s[i]))
  }

  lemma DataOfAppend(kind: Kind, s: seq<Byte>, t: seq<Byte>)
    ensures DataOf(kind, s + t) == DataOf(kind, s) + DataOf(kind, t)
  {}

  /** A run whose next byte does what o says. */
  lemma RunByte(step: Stepper, t: Trace, data: seq<Byte>, p: nat, o: Out)
    requires p < |data| && t.Going() && o == step(t.core, data[p])
    ensures Run(step, t, data, p) == Run(step, After(t, data[p], o), data, p + 1)
    ensures !After(t, data[p], o).Going() ==> Run(step, t, data, p) == After(t, data[p], o)
  {}

  lemma RunEnds(step: Stepper, t: Trace, data: seq<Byte>, p: nat)
    requires p == |data| || !t.Going()
    ensures Run(step, t, data, p) == t
  {}

  lemma TakenOne(t: Trace, k1: Core, kind: Kind, ch: Byte)
    requires k1.errno == OK && !t.exited
    ensures After(t, ch, Keep(kind, Go(k1, k1.state)))
            == t.(core := k1, held := t.held + [Data(kind, ch)], taken := t.taken + 1)
  {
    assert t.log + Notified([]) == t.log;
  }

  lemma DataFrom(held: seq<Seen>, kind: Kind, data: seq<Byte>, p: nat, q: nat)
    requires p < q <= |data|
    ensures held + [Data(kind, data[p])] + DataOf(kind, data[p + 1..q]) == held + DataOf(kind, data[p..q])
  {}

  /** The first byte of an item, and the rest of it. */
  lemma DataHead(held: seq<Seen>, kind: Kind, s: seq<Byte>)
    requires held == [] && s != []
    ensures held + [Data(kind, s[0])] + DataOf(kind, s[1..]) == DataOf(kind, s)
  {}

  lemma DataLast(kind: Kind, s: seq<Byte>)
    requires s != []
    ensures DataOf(kind, s[..|s| - 1]) + [Data(kind, s[|s| - 1])] == DataOf(kind, s)
  {}

  lemma DataNone(held: seq<Seen>, kind: Kind, s: seq<Byte>)
    ensures held + DataOf(kind, s[|s|..]) == held
  {}

  // Bytes are held only inside an item

  predicate MayHold(s: State) {
    || s.Status? || s.HeaderField? || s.HeaderValue?
    || s.ChunkData? || s.ChunkDataAlmostDone? || s.BodyIdentity? || s.BodyIdentityEof?
  }

  predicate HoldsWell(t: Trace) {
    (t.held != [] && t.core.errno == OK ==> MayHold(t.core.state)) && (t.exited ==> t.held == [])
  }

  /** Nothing is held when a notification is given, when the parser leaves, or outside an item. */
  predicate OutWell(s: State, o: Out) {
    var free := o.flush || (!MayHold(s) && o.kind == None);
    && (o.notes != [] ==> free)
    && (o.exit ==> free)
    && (o.core.errno == OK && !free ==> MayHold(o.core.state))
  }

  lemma HeaderStartWell(noBody: Core -> bool, k: Core, ch: Byte)
    ensures k.state == HeaderFieldStart ==> OutWell(HeaderFieldStart, StepHeaderFieldStart(noBody, k, ch))
    ensures k.state == HeadersAlmostDone ==> OutWell(HeadersAlmostDone, StepHeadersAlmostDone(noBody, k, ch))
  {}

  lemma HeaderValueStartWell(s: State, k: Core, ch: Byte)
    ensures OutWell(s, StepHeaderValueStart(k, ch))
  {}

  lemma HeaderEndsWell(noBody: Core -> bool, k: Core, ch: Byte)
    requires !MayHold(k.state)
    ensures OutWell(k.state, StepHeaderEnds(noBody, k, ch))
  {
    if k.state == DiscardLws || k.state == HeaderValueLws {
      HeaderStartWell(noBody, Finished(k).(state := HeaderFieldStart), ch);
    }
    HeaderValueStartWell(k.state, k, ch);
  }

  lemma StatusLineWell(k: Core, ch: Byte)
    requires ParsingHeader(k.state) && k.state != HeaderField && k.state != HeaderValue
    ensures OutWell(k.state, StepStatusLine(k, ch))
  {}

  lemma BodyWell(k: Core, ch: Byte)
    ensures !ParsingHeader(k.state) ==> OutWell(k.state, StepBody(k, ch))
    ensures !MayHold(k.state) ==> OutWell(k.state, StepChunkSize(k, ch))
  {}

  lemma HeaderWell(k: Core, ch: Byte)
    ensures k.state == HeaderField ==> OutWell(k.state, StepHeaderField(k, ch))
    ensures k.state == HeaderValue ==> OutWell(k.state, StepHeaderValue(k, ch))
    ensures k.state == HeadersDone ==> OutWell(k.state, StepHeadersDone(k, ch))
  {
    hide FieldChar, ValueChar, NewMessage;
  }

  lemma StepWell(noBody: Core -> bool, k: Core, ch: Byte)
    ensures OutWell(k.state, Step(noBody, k, ch))
  {
    hide StepStatusLine, StepHeaderEnds, StepHeaderFieldStart, StepHeadersAlmostDone, StepChunkSize, StepBody;
    hide StepHeaderField;
    hide StepHeaderValue, StepHeadersDone, OutWell;
    match k.state
    case HeaderFieldStart => HeaderStartWell(noBody, k, ch);
    case HeadersAlmostDone => HeaderStartWell(noBody, k, ch);
    case HeaderField => HeaderWell(k, ch);
    case HeaderValue => HeaderWell(k, ch);
    case HeadersDone => HeaderWell(k, ch);
    case _ =>
      if !ParsingHeader(k.state) || InChunks(k.state) {
        BodyWell(k, ch);
      } else {
        StatusLineWell(k, ch);
        if !MayHold(k.state) { HeaderEndsWell(noBody, k, ch); }
      }
  }

  ghost predicate Well(step: Stepper) {
    forall k: Core, ch: Byte :: OutWell(k.state, step(k, ch))
  }

  lemma ParserStepWell(noBody: Core -> bool)
    ensures Well(ParserStep(noBody))
  {
    forall k: Core, ch: Byte
      ensures OutWell(k.state, ParserStep(noBody)(k, ch))
    {
      StepWell(noBody, k, ch);
    }
  }

  // Cutting a stream

  /** Past a, a run over a + b is a run over b. */
  lemma {:induction false} RunShift(step: Stepper, t: Trace, a: seq<Byte>, b: seq<Byte>, p: nat)
    requires p <= |b|
    ensures Run(step, t, a + b, |a| + p) == Run(step, t, b, p)
    decreases |b| - p
  {
    if p < |b| && t.Going() {
      assert (a + b)[|a| + p] == b[p];
      RunShift(step, StepTrace(step, t, b[p]), a, b, p + 1);
    }
  }

  lemma {:induction false} RunAppend(step: Stepper, t: Trace, a: seq<Byte>, b: seq<Byte>, p: nat)
    requires p <= |a|
    ensures Run(step, t, a + b, p) == Run(step, Run(step, t, a, p), b, 0)
    decreases |a| - p
  {
    if p == |a| {
      RunShift(step, t, a, b, 0);
    } else if t.Going() {
      assert (a + b)[p] == a[p];
      RunAppend(step, StepTrace(step, t, a[p]), a, b, p + 1);
    }
  }

  /** No item is passed to its callback while the parser takes data[p..]. */
  predicate StillOpen(step: Stepper, k: Core, data: seq<Byte>, p: nat)
    decreases |data| - p
  {
    p >= |data| || k.errno != OK ||
    (var o := step(k, data[p]); !o.flush && (o.exit || StillOpen(step, o.core, data, p + 1)))
  }

  /** Two parsers that differ only in bytes the second has delivered and the first still holds. */
  predicate Behind(t: Trace, t': Trace, early: seq<Seen>) {
    && t'.core == t.core && t'.exited == t.exited && t'.taken == t.taken
    && t'.log == t.log + early && t.held == early + t'.held
  }

  /** Some of what is held has been delivered early, and more is then held or delivered. */
  lemma EarlyOrLate(log: seq<Seen>, early: seq<Seen>, held: seq<Seen>, more: seq<Seen>)
    ensures early + held + more == early + (held + more)
    ensures log + (early + held + more) == log + early + (held + more)
    ensures log + early == log + early + [] && log + [] == log
  {}

  lemma StepBehind(step: Stepper, t: Trace, t': Trace, early: seq<Seen>, ch: Byte)
    requires Well(step) && Behind(t, t', early) && HoldsWell(t) && t.Going()
    ensures HoldsWell(StepTrace(step, t, ch))
    ensures if step(t.core, ch).flush then StepTrace(step, t, ch) == StepTrace(step, t', ch)
            else Behind(StepTrace(step, t, ch), StepTrace(step, t', ch), early)
  {
    BehindAfter(t, t', early, ch, step(t.core, ch));
  }

  lemma BehindAfter(t: Trace, t': Trace, early: seq<Seen>, ch: Byte, o: Out)
    requires Behind(t, t', early) && HoldsWell(t) && t.Going() && OutWell(t.core.state, o)
    ensures if o.flush then After(t, ch, o) == After(t', ch, o) else Behind(After(t, ch, o), After(t', ch, o), early)
  {
    if o.kind.Some? { EarlyOrLate(t.log, early, t'.held, [Data(o.kind.value, ch)]); }
    EarlyOrLate(t.log, early, t'.held, []);
    if !o.flush {
      if o.notes == [] {
        EarlyOrLate(t.log, early, [], []);
        EarlyOrLate(t'.log, [], [], []);
      } else {
        assert t.held == [] && early == [];
      }
    }
  }

  lemma {:induction false} RunBehind(step: Stepper, t: Trace, t': Trace, early: seq<Seen>, data: seq<Byte>, p: nat)
    requires Well(step) && Behind(t, t', early) && HoldsWell(t)
    ensures HoldsWell(Run(step, t, data, p))
    ensures if t.Going() && !StillOpen(step, t.core, data, p) then Run(step, t, data, p) == Run(step, t', data, p)
            else Behind(Run(step, t, data, p), Run(step, t', data, p), early)
    decreases |data| - p
  {
    if p < |data| && t.Going() {
      StepBehind(step, t, t', early, data[p]);
      var u, u' := StepTrace(step, t, data[p]), StepTrace(step, t', data[p]);
      if step(t.core, data[p]).flush {
        EarlyOrLate(u.log, [], u.held, []);
        RunBehind(step, u, u, [], data, p + 1);
      } else {
        RunBehind(step, u, u', early, data, p + 1);
        assert StillOpen(step, t.core, data, p) <==> u.exited || StillOpen(step, u.core, data, p + 1);
        assert Run(step, t, data, p) == Run(step, u, data, p + 1)
            && Run(step, t', data, p) == Run(step, u', data, p + 1);
      }
    }
  }

  lemma FinishBehind(t: Trace, t': Trace, early: seq<Seen>)
    requires Behind(t, t', early) && HoldsWell(t)
    ensures Finish(t').core == Finish(t).core && Finish(t').exited == Finish(t).exited
    ensures Finish(t').taken == Finish(t).taken && Finish(t').held == Finish(t).held
    ensures Finish(t').log == Finish(t).log + (if t.core.errno != OK then early else [])
  {
    EarlyOrLate(t.log, early, t'.held, []);
  }

  /**
   * A stream cut into a and b gives the same error, fields, return values and callback data as
   * the stream in one piece, except that when b is refused inside the item that a ends in, the
   * callbacks have already seen a's part of that item; in one piece they never see it.
   */
  lemma CutAnywhere(noBody: Core -> bool, t: Trace, a: seq<Byte>, b: seq<Byte>)
    requires t.core.errno == OK && a != [] && b != []
    ensures var step := ParserStep(noBody);
            var atCut := Run(step, t.(held := [], exited := false), a, 0);
            var whole, cut := Call(step, t, a + b), Call(step, Call(step, t, a), b);
            if atCut.Going() then
              && cut.(log := whole.log) == whole
              && cut.log == whole.log
                 + (if whole.core.errno != OK && StillOpen(step, atCut.core, b, 0) then atCut.held else [])
            else whole == Call(step, t, a)
  {
    var step := ParserStep(noBody);
    ParserStepWell(noBody);
    var start := t.(held := [], exited := false);
    var atCut := Run(step, start, a, 0);
    RunAppend(step, start, a, b, 0);
    assert start.log + [] == start.log;
    RunBehind(step, start, start, [], a, 0);
    if atCut.Going() {
      var next := Finish(atCut);
      assert atCut.held + [] == atCut.held;
      RunBehind(step, atCut, next, atCut.held, b, 0);
      var r, r' := Run(step, atCut, b, 0), Run(step, next, b, 0);
      assert next.(held := [], exited := false) == next;
      if StillOpen(step, atCut.core, b, 0) {
        FinishBehind(r, r', atCut.held);
      } else {
        EarlyOrLate(Finish(r).log, [], [], []);
      }
    }
  }

  /** Exactly when a cut goes unnoticed. */
  lemma CutUnnoticed(noBody: Core -> bool, t: Trace, a: seq<Byte>, b: seq<Byte>)
    requires t.core.errno == OK && a != [] && b != []
    requires Run(ParserStep(noBody), t.(held := [], exited := false), a, 0).Going()
    ensures var step := ParserStep(noBody);
            var atCut := Run(step, t.(held := [], exited := false), a, 0);
            var whole := Call(step, t, a + b);
            Call(step, Call(step, t, a), b) == whole
            <==> whole.core.errno == OK || atCut.held == [] || !StillOpen(step, atCut.core, b, 0)
  {
    var step := ParserStep(noBody);
    CutAnywhere(noBody, t, a, b);
    var whole := Call(step, t, a + b);
    EarlyOrLate(whole.log, [], [], []);
  }

  /** An accepted stream may be cut anywhere, any number of times. */
  lemma {:induction false} CutsUnnoticed(noBody: Core -> bool, t: Trace, pieces: seq<seq<Byte>>)
    requires t.core.errno == OK && pieces != [] && forall i :: 0 <= i < |pieces| ==> pieces[i] != []
    requires Call(ParserStep(noBody), t, Joined(pieces)).Going()
    ensures Calls(ParserStep(noBody), t, pieces) == Call(ParserStep(noBody), t, Joined(pieces))
    decreases |pieces|
  {
    var step := ParserStep(noBody);
    if |pieces| == 1 {
      assert Joined(pieces) == pieces[0] + [] == pieces[0];
      assert pieces[1..] == [];
    } else {
      assert Joined(pieces[1..]) == pieces[1] + Joined(pieces[1..][1..]);
      CutAnywhere(noBody, t, pieces[0], Joined(pieces[1..]));
      var first := Call(step, t, pieces[0]);
      var whole := Call(step, t, Joined(pieces));
      EarlyOrLate(whole.log, [], [], []);
      CutsUnnoticed(noBody, first, pieces[1..]);
    }
  }
}
