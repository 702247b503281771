/** What a WebSocket stream makes mongoose do, frame by frame (RFC 6455, section 5). */
module WsEvents {
  import opened Bytes
  import opened Octets
  import opened WebSocket

  predicate AllValid(frames: seq<Frame>) {
    forall i :: 0 <= i < |frames| ==> ValidFrame(frames[i])
  }

  /** What is there of a frame that has not come in completely. */
  ghost predicate Unfinished(tail: seq<Octet>) {
    tail == [] || exists f: Frame :: ValidFrame(f) && tail < FrameText(f)
  }

  // Any stream of frames, whatever their opcodes

  datatype Sort = Answered | Controlled | Failed

  predicate IsOf(e: Event, sort: Sort) {
    match sort
    case Answered => e.Send?
    case Controlled => e.WsCtl?
    case Failed => e.Fail?
  }

  /** The events of one sort, in order */
  function Only(events: seq<Event>, sort: Sort): seq<Event> {
    if events == [] then []
    else (if IsOf(events[0], sort) then [events[0]] else []) + Only(events[1..], sort)
  }

  /**
   * A ping (opcode 9) is answered with a pong (10) of the same data, a close frame (8) with an empty close; the
   * handler is told of continuations (0), close frames, pings and pongs; and the opcodes 3 to 7 and 11 to 15 are
   * failures.
   */
  function Due(f: Frame, sort: Sort): seq<Event> {
    var op := f.flags % 16;
    match sort
    case Answered => if op == 9 then [Send(f.data, 10)] else if op == 8 then [Send([], 8)] else []
    case Controlled => if op == 0 || 8 <= op <= 10 then [WsCtl(f.flags, f.data)] else []
    case Failed => if 3 <= op <= 7 || 11 <= op then [Fail(op)] else []
  }

  function AllDue(frames: seq<Frame>, sort: Sort): seq<Event> {
    if frames == [] then [] else Due(frames[0], sort) + AllDue(frames[1..], sort)
  }

  lemma {:induction false} OnlyAppend(a: seq<Event>, b: seq<Event>, sort: Sort)
    ensures Only(a + b, sort) == Only(a, sort) + Only(b, sort)
  {
    hide IsOf;
    if a == [] {
      assert a + b == b;
    } else {
      assert (a + b)[0] == a[0] && (a + b)[1..] == a[1..] + b;
      OnlyAppend(a[1..], b, sort);
      var first := if IsOf(a[0], sort) then [a[0]] else [];
      assert first + Only(a[1..], sort) + Only(b, sort) == first + (Only(a[1..], sort) + Only(b, sort));
    }
  }

  /** What a frame does, with anything kept of a message. */
  lemma FrameDue(kept: seq<Octet>, f: Frame, used: nat, sort: Sort)
    ensures Only(Keep(kept, Parsed(f.flags, f.data, used)).1, sort) == Due(f, sort)
  {
    hide Only;
    var told, stored := FrameEvents(f.flags, f.data), Store(kept, f.flags, f.data).1;
    StoredIsMessage(kept, f, sort);
    ToldIsDue(f, sort);
    OnlyAppend(told, stored, sort);
  }

  lemma StoredIsMessage(kept: seq<Octet>, f: Frame, sort: Sort)
    ensures Only(Store(kept, f.flags, f.data).1, sort) == []
  {}

  lemma ToldIsDue(f: Frame, sort: Sort)
    ensures Only(FrameEvents(f.flags, f.data), sort) == Due(f, sort)
  {
    var ctl, pong, close := WsCtl(f.flags, f.data), Send(f.data, OP_PONG), Send([], OP_CLOSE);
    OnlyTwo(pong, ctl, sort);
    OnlyTwo(ctl, close, sort);
  }

  lemma OnlyOne(a: Event, sort: Sort)
    ensures Only([a], sort) == if IsOf(a, sort) then [a] else []
  {
    hide IsOf;
    assert [a][1..] == [];
  }

  lemma OnlyTwo(a: Event, b: Event, sort: Sort)
    ensures Only([a, b], sort) == (if IsOf(a, sort) then [a] else []) + (if IsOf(b, sort) then [b] else [])
  {
    hide IsOf;
    assert [a, b][1..] == [b] && [b][1..] == [];
    OnlyOne(b, sort);
  }

  /** A frame at the front of the rest is taken off it. */
  lemma DrainFrame(kept: seq<Octet>, f: Frame, after: seq<Octet>, before: seq<Event>)
    requires ValidFrame(f)
    ensures var (k, events) := Keep(kept, Parsed(f.flags, f.data, |FrameText(f)|));
            Drain(Reader(kept, FrameText(f) + after, before)) == Drain(Reader(k, after, before + events))
  {
    hide Keep, FrameText, Parse;
    ParseFrame(f, after);
    assert (FrameText(f) + after)[|FrameText(f)|..] == after;
  }

  lemma DrainTail(kept: seq<Octet>, tail: seq<Octet>, before: seq<Event>)
    requires Unfinished(tail)
    ensures Drain(Reader(kept, tail, before)) == Reader(kept, tail, before)
  {
    if tail == [] {
      ParseNothing();
    } else {
      var f: Frame :| ValidFrame(f) && tail < FrameText(f);
      ParsePrefix(f, tail);
    }
  }

  /** The first frame of a stream, and what follows it. */
  lemma FirstFrame(frames: seq<Frame>, tail: seq<Octet>)
    requires frames != [] && AllValid(frames)
    ensures AllValid(frames[1..])
    ensures StreamText(frames) + tail == FrameText(frames[0]) + (StreamText(frames[1..]) + tail)
  {
    hide FrameText;
    assert forall i :: 0 <= i < |frames[1..]| ==> frames[1..][i] == frames[i + 1];
  }

  /** Of any frames, exactly what is due for each of them is done, in their order. */
  lemma {:induction false} EveryFrame(frames: seq<Frame>, kept: seq<Octet>, tail: seq<Octet>, before: seq<Event>,
                                      sort: Sort)
    requires AllValid(frames) && Unfinished(tail)
    ensures var r := Drain(Reader(kept, StreamText(frames) + tail, before));
            Only(r.events, sort) == Only(before, sort) + AllDue(frames, sort) && r.rest == tail
    decreases |frames|
  {
    hide Keep, FrameText, Only, Due, Drain, Unfinished, StreamText, ValidFrame;
    if frames == [] {
      assert StreamText(frames) + tail == tail by { EmptyStream(tail); }
      DrainTail(kept, tail, before);
    } else {
      var f := frames[0];
      FirstValid(frames);
      FirstFrame(frames, tail);
      var (k, events) := Keep(kept, Parsed(f.flags, f.data, |FrameText(f)|));
      DrainFrame(kept, f, StreamText(frames[1..]) + tail, before);
      FrameDue(kept, f, |FrameText(f)|, sort);
      OnlyAppend(before, events, sort);
      EveryFrame(frames[1..], k, tail, before + events, sort);
      assert Only(before, sort) + Due(f, sort) + AllDue(frames[1..], sort)
             == Only(before, sort) + (Due(f, sort) + AllDue(frames[1..], sort));
    }
  }

  lemma EmptyStream(tail: seq<Octet>)
    ensures StreamText([]) + tail == tail
  {}

  lemma FirstValid(frames: seq<Frame>)
    requires frames != [] && AllValid(frames)
    ensures ValidFrame(frames[0]) && Encodable(frames[0])
  {}

  /** The same, however the stream comes in, and even in the middle of a frame. */
  lemma EveryFrameAnswered(frames: seq<Frame>, tail: seq<Octet>, cuts: seq<seq<Octet>>, sort: Sort)
    requires AllValid(frames) && Unfinished(tail) && Joined(cuts) == StreamText(frames) + tail
    ensures var r := ReceiveAll(Reader([], [], []), cuts);
            Only(r.events, sort) == AllDue(frames, sort) && r.rest == tail
  {
    hide Drain, StreamText;
    var start := Reader([], [], []);
    DrainTail([], [], []);
    ReadsDoNotMatter(start, cuts);
    assert [] + (StreamText(frames) + tail) == StreamText(frames) + tail;
    EveryFrame(frames, [], tail, [], sort);
    assert [] + AllDue(frames, sort) == AllDue(frames, sort);
  }

  // Well-formed streams: all that happens, in order

  /** What happens on a frame; a final continuation ends the open message. */
  function Told(f: Frame, open: Open): seq<Event> {
    var op, last, ctl := f.flags % 16, f.flags >= 128, WsCtl(f.flags, f.data);
    if op == 8 then [ctl, Send([], 8)]
    else if op == 9 then [Send(f.data, 10), ctl]
    else if op == 10 then [ctl]
    else if open.Some? then
      [ctl] + (if last then [WsMsg(open.value.0, open.value.1 + f.data)] else [])
    else if last then [WsMsg(f.flags, f.data)]
    else []
  }

  /** The message that is open after a frame. */
  function Next(f: Frame, open: Open): Open {
    if f.flags % 16 >= 8 then open
    else if f.flags >= 128 then None
    else if open.Some? then Some((open.value.0, open.value.1 + f.data))
    else Some((f.flags, f.data))
  }

  function AllTold(frames: seq<Frame>, open: Open): seq<Event>
    decreases |frames|
  {
    if frames == [] then [] else Told(frames[0], open) + AllTold(frames[1..], Next(frames[0], open))
  }

  /** One frame of a well-formed stream. */
  lemma FrameTold(frames: seq<Frame>, open: Open)
    requires frames != [] && WellFormed(frames, open)
    ensures var f := frames[0];
            && ValidFrame(f) && WellFormed(frames[1..], Next(f, open))
            && Keep(KeptOf(open), Parsed(f.flags, f.data, |FrameText(f)|)) == (KeptOf(Next(f, open)), Told(f, open))
  {
    hide FrameText, ValidFrame;
    var f := frames[0];
    if open.Some? && !IsControl(f.flags) {
      var all := KeptOf(open) + f.data;
      assert all[0] == open.value.0 && all[1..] == open.value.1 + f.data;
      assert all == [open.value.0] + (open.value.1 + f.data);
    } else {
      assert [] + [f.flags] + f.data == [f.flags] + f.data;
      assert Told(f, open) + [] == Told(f, open);
    }
  }

  /** All events of a well-formed stream, in order. */
  lemma {:induction false} ExactEvents(frames: seq<Frame>, open: Open, before: seq<Event>)
    requires WellFormed(frames, open) && AllValid(frames)
    ensures Drain(Reader(KeptOf(open), StreamText(frames), before)) == Reader([], [], before + AllTold(frames, open))
    decreases |frames|
  {
    hide Keep, FrameText, KeptOf, Drain, StreamText, WellFormed, Told, Next, ValidFrame;
    if frames == [] {
      NoFrames(open, before);
    } else {
      var f, next := frames[0], Next(frames[0], open);
      FrameTold(frames, open);
      FirstFrame(frames, []);
      assert StreamText(frames) + [] == StreamText(frames) && StreamText(frames[1..]) + [] == StreamText(frames[1..]);
      DrainFrame(KeptOf(open), f, StreamText(frames[1..]), before);
      ExactEvents(frames[1..], next, before + Told(f, open));
      assert before + Told(f, open) + AllTold(frames[1..], next)
             == before + (Told(f, open) + AllTold(frames[1..], next));
    }
  }

  lemma NoFrames(open: Open, before: seq<Event>)
    requires WellFormed([], open)
    ensures Drain(Reader(KeptOf(open), StreamText([]), before)) == Reader([], [], before + [])
  {
    ParseNothing();
    assert before + [] == before;
  }

  /** The same, however the stream comes in. */
  lemma ExactEventsOfReads(frames: seq<Frame>, cuts: seq<seq<Octet>>)
    requires WellFormed(frames, None) && AllValid(frames) && Joined(cuts) == StreamText(frames)
    ensures ReceiveAll(Reader([], [], []), cuts) == Reader([], [], AllTold(frames, None))
  {
    hide Drain, StreamText;
    DrainTail([], [], []);
    ReadsDoNotMatter(Reader([], [], []), cuts);
    assert [] + StreamText(frames) == StreamText(frames);
    KeptOfNone();
    ExactEvents(frames, None, []);
    assert [] + AllTold(frames, None) == AllTold(frames, None);
  }
}
