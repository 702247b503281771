/** WebSocket frames as mongoose parses them, and the messages they carry (RFC 6455, section 5). */
module WebSocket {
  import opened Bytes
  import opened Octets

  const MAX_DATA: nat := 1024 * 1024 * 1024

  /** struct ws_msg */
  datatype Msg = Msg(flags: Octet, headerLen: nat, dataLen: nat)

  predicate IsFinal(flags: Octet) {
    flags >= 128
  }

  function Opcode(flags: Octet): (op: nat)
    ensures op < 16
  {
    flags % 16
  }

  const OP_CONTINUE := 0
  const OP_TEXT := 1
  const OP_BINARY := 2
  const OP_CLOSE := 8
  const OP_PING := 9
  const OP_PONG := 10

  // Frames

  /** How many octets a mask key takes. */
  function MaskLen(second: Octet): nat {
    if second >= 128 then 4 else 0
  }

  /** ws_process before its sanity check: header and data length, both zero if more octets are needed. */
  function Lengths(s: seq<Octet>): (r: (nat, nat)) {
    if |s| < 2 then (0, 0)
    else
      var n, maskLen := s[1] % 128, MaskLen(s[1]);
      if n < 126 && |s| >= maskLen then (2 + maskLen, n)
      else if n == 126 && |s| >= 4 + maskLen then (4 + maskLen, Number(s[2..4]))
      else if |s| >= 10 + maskLen then (10 + maskLen, Number(s[2..6]) * 0x1_0000_0000 + Number(s[6..10]))
      else (0, 0)
  }

  /** Octet i of masked data, with the key before it. */
  function Unmasked(s: seq<Octet>, headerLen: nat, dataLen: nat): (data: seq<Octet>)
    requires 4 <= headerLen && headerLen + dataLen <= |s|
    ensures |data| == dataLen
  {
    seq(dataLen, i requires 0 <= i < dataLen => Xor(s[headerLen + i], s[headerLen - 4 + i % 4]))
  }

  /** The frame at the start of s: its flags, its data, and how many octets it takes. */
  datatype Parsed = Parsed(flags: Octet, data: seq<Octet>, used: nat)

  /** ws_process: nothing, as long as the frame is not complete, or if its data is too long. */
  function Parse(s: seq<Octet>): (r: Option<Parsed>)
    ensures r.Some? ==> 0 < r.value.used <= |s|
  {
    var (headerLen, dataLen) := Lengths(s);
    if headerLen == 0 || dataLen > MAX_DATA || headerLen + dataLen > |s| then None
    else
      var data := if s[1] >= 128 then Unmasked(s, headerLen, dataLen) else s[headerLen..headerLen + dataLen];
      Some(Parsed(s[0], data, headerLen + dataLen))
  }

  lemma LengthsAppend(a: seq<Octet>, b: seq<Octet>)
    ensures Lengths(a).0 > 0 ==> Lengths(a + b) == Lengths(a) && (a + b)[0] == a[0] && (a + b)[1] == a[1]
    ensures Lengths(a).0 > 0 ==> Lengths(a).0 >= 2 + MaskLen(a[1])
  {
    hide Number;
    var s := a + b;
    if |a| >= 2 { assert s[0] == a[0] && s[1] == a[1]; }
    if |a| >= 4 { assert s[2..4] == a[2..4]; }
    if |a| >= 10 { assert s[2..6] == a[2..6] && s[6..10] == a[6..10]; }
  }

  /** Whether a frame is complete does not depend on what follows it. */
  lemma ParseAppend(a: seq<Octet>, b: seq<Octet>)
    ensures Parse(a).Some? ==> Parse(a + b) == Parse(a)
  {
    hide Lengths, Unmasked;
    LengthsAppend(a, b);
    if Parse(a).Some? {
      var (h, d) := Lengths(a);
      SliceAppend(a, b, h, d);
      if a[1] >= 128 {
        UnmaskedAppend(a, b, h, d);
      }
    }
  }

  lemma SliceAppend(a: seq<Octet>, b: seq<Octet>, h: nat, d: nat)
    requires h + d <= |a|
    ensures (a + b)[h..h + d] == a[h..h + d]
  {}

  lemma UnmaskedAppend(a: seq<Octet>, b: seq<Octet>, h: nat, d: nat)
    requires 4 <= h && h + d <= |a|
    ensures Unmasked(a + b, h, d) == Unmasked(a, h, d)
  {
    hide Xor;
    assert forall i :: 0 <= i < |a| ==> (a + b)[i] == a[i];
  }

  // Messages

  datatype Event =
    | WsMsg(flags: Octet, data: seq<Octet>)   // MG_EV_WS_MSG
    | WsCtl(flags: Octet, data: seq<Octet>)   // MG_EV_WS_CTL
    | Send(data: seq<Octet>, op: nat)         // mg_ws_send
    | Fail(op: nat)                           // mg_error
    | Stray(flags: Octet)                     // the end of a message of which nothing has been kept

  /** The events of a frame as it comes. */
  function FrameEvents(flags: Octet, data: seq<Octet>): seq<Event> {
    var op := Opcode(flags);
    if op == OP_CONTINUE || op == OP_PONG then [WsCtl(flags, data)]
    else if op == OP_PING then [Send(data, OP_PONG), WsCtl(flags, data)]
    else if op == OP_TEXT || op == OP_BINARY then (if IsFinal(flags) then [WsMsg(flags, data)] else [])
    else if op == OP_CLOSE then [WsCtl(flags, data), Send([], OP_CLOSE)]
    else [Fail(op)]
  }

  /**
   * What a frame does to the octets kept at the front of the buffer: a first fragment keeps its
   * flags and its data, a continuation its data, and a final continuation delivers what was kept.
   */
  function Store(kept: seq<Octet>, flags: Octet, data: seq<Octet>): (r: (seq<Octet>, seq<Event>)) {
    var op := Opcode(flags);
    if IsFinal(flags) && op != 0 then (kept, [])
    else
      var kept' := if op != 0 then kept + [flags] + data else kept + data;
      if !IsFinal(flags) then (kept', [])
      else if kept' == [] then ([], [Stray(flags)])
      else ([], [WsMsg(kept'[0], kept'[1..])])
  }

  function Keep(kept: seq<Octet>, p: Parsed): (r: (seq<Octet>, seq<Event>)) {
    var (kept', events) := Store(kept, p.flags, p.data);
    (kept', FrameEvents(p.flags, p.data) + events)
  }

  /** The buffer and the events after a read. */
  datatype Reader = Reader(kept: seq<Octet>, rest: seq<Octet>, events: seq<Event>)

  /** The loop of mg_ws_cb: every complete frame is handled. */
  function Drain(r: Reader): (r': Reader)
    decreases |r.rest|
  {
    match Parse(r.rest)
    case None => r
    case Some(p) =>
      var (kept, events) := Keep(r.kept, p);
      Drain(Reader(kept, r.rest[p.used..], r.events + events))
  }

  /** MG_EV_READ after octets have come in. */
  function Receive(r: Reader, data: seq<Octet>): Reader {
    Drain(r.(rest := r.rest + data))
  }

  /** Frames are the same wherever the reads cut the stream. */
  lemma {:induction false} DrainAppend(r: Reader, b: seq<Octet>)
    ensures Drain(r.(rest := r.rest + b)) == Receive(Drain(r), b)
    decreases |r.rest|
  {
    ParseAppend(r.rest, b);
    match Parse(r.rest)
    case None =>
    case Some(p) =>
      var (kept, events) := Keep(r.kept, p);
      var r1 := Reader(kept, r.rest[p.used..], r.events + events);
      assert (r.rest + b)[p.used..] == r.rest[p.used..] + b;
      DrainAppend(r1, b);
  }

  lemma ReceiveTwice(r: Reader, a: seq<Octet>, b: seq<Octet>)
    ensures Receive(r, a + b) == Receive(Receive(r, a), b)
  {
    hide Drain, Parse, Keep;
    assert r.rest + (a + b) == r.rest + a + b;
    DrainAppend(r.(rest := r.rest + a), b);
  }

  function ReceiveAll(r: Reader, cuts: seq<seq<Octet>>): Reader
    decreases |cuts|
  {
    if cuts == [] then r else ReceiveAll(Receive(r, cuts[0]), cuts[1..])
  }

  function Joined(cuts: seq<seq<Octet>>): seq<Octet>
    decreases |cuts|
  {
    if cuts == [] then [] else cuts[0] + Joined(cuts[1..])
  }

  /** Any way of cutting a stream into reads gives the same events and leaves the same buffer. */
  lemma {:induction false} ReadsDoNotMatter(r: Reader, cuts: seq<seq<Octet>>)
    requires Drain(r) == r
    ensures ReceiveAll(r, cuts) == Receive(r, Joined(cuts))
    decreases |cuts|
  {
    if cuts == [] {
      assert r.rest + [] == r.rest;
    } else {
      ReceiveTwice(r, cuts[0], Joined(cuts[1..]));
      Drained(r.(rest := r.rest + cuts[0]));
      ReadsDoNotMatter(Receive(r, cuts[0]), cuts[1..]);
    }
  }

  lemma {:induction false} Drained(r: Reader)
    ensures Drain(Drain(r)) == Drain(r)
    decreases |r.rest|
  {
    match Parse(r.rest)
    case None =>
    case Some(p) =>
      var (kept, events) := Keep(r.kept, p);
      Drained(Reader(kept, r.rest[p.used..], r.events + events));
  }

  // Well-formed streams

  /** The three ways of writing a length: in the second octet, in two octets, in eight. */
  datatype Form = Short | Medium | Long

  datatype Frame = Frame(flags: Octet, mask: Option<seq<Octet>>, form: Form, data: seq<Octet>)

  predicate Encodable(f: Frame) {
    && (f.mask.Some? ==> |f.mask.value| == 4)
    && |f.data| <= (if f.form.Short? then 125 else if f.form.Medium? then 65535 else 0xFFFF_FFFF_FFFF_FFFF)
  }

  predicate ValidFrame(f: Frame) {
    Encodable(f) && |f.data| <= MAX_DATA
  }

  function Masked(data: seq<Octet>, key: seq<Octet>): (r: seq<Octet>)
    requires |key| == 4
    ensures |r| == |data|
  {
    seq(|data|, i requires 0 <= i < |data| => Xor(data[i], key[i % 4]))
  }

  /** Section 5.3: bit b of octet i is turned over exactly if it is set in octet i modulo 4 of the key. */
  lemma MaskedByBits(data: seq<Octet>, key: seq<Octet>, i: nat, b: nat)
    requires |key| == 4 && i < |data| && b < 8
    ensures Bit(Masked(data, key)[i], b) == if Bit(key[i % 4], b) == 1 then 1 - Bit(data[i], b) else Bit(data[i], b)
  {
    hide Xor, Bit;
    XorByBits(data[i], key[i % 4], b);
  }

  /** Section 5.2: flags, mask bit and length, the rest of the length, the key, the data. */
  function FrameHead(f: Frame): (s: seq<Octet>)
    requires Encodable(f)
  {
    var n, bit := |f.data|, if f.mask.Some? then 128 else 0;
    (match f.form
     case Short => [f.flags, bit + n]
     case Medium => [f.flags, bit + 126] + Digits(n, 2)
     case Long => [f.flags, bit + 127] + Digits(n, 8))
    + (if f.mask.Some? then f.mask.value else [])
  }

  function FrameText(f: Frame): (s: seq<Octet>)
    requires Encodable(f)
  {
    FrameHead(f) + (if f.mask.Some? then Masked(f.data, f.mask.value) else f.data)
  }

  /** The head of a frame gives its lengths. */
  lemma HeadLengths(f: Frame, s: seq<Octet>)
    requires Encodable(f) && FrameHead(f) <= s
    ensures Lengths(s) == (|FrameHead(f)|, |f.data|) && s[0] == f.flags && (s[1] >= 128 <==> f.mask.Some?)
    ensures |FrameHead(f)| >= 2 + (if f.mask.Some? then 4 else 0)
  {
    hide Number, Digits;
    var h, n := FrameHead(f), |f.data|;
    var mask := if f.mask.Some? then f.mask.value else [];
    assert forall i :: 0 <= i < |h| ==> s[i] == h[i];
    match f.form
    case Short =>
    case Medium =>
      assert h[2..4] == Digits(n, 2);
      assert s[2..4] == h[2..4];
      TwoDigits(n);
    case Long =>
      assert h[2..6] == Digits(n, 8)[..4] && h[6..10] == Digits(n, 8)[4..];
      assert s[2..6] == h[2..6] && s[6..10] == h[6..10];
      EightDigits(n);
  }

  lemma TwoDigits(n: nat)
    requires n < 65536
    ensures Number(Digits(n, 2)) == n
  {
    assert Power256(2) == 65536;
    NumberOfDigits(n, 2);
  }

  lemma EightDigits(n: nat)
    requires n <= 0xFFFF_FFFF_FFFF_FFFF
    ensures Number(Digits(n, 8)[..4]) * 0x1_0000_0000 + Number(Digits(n, 8)[4..]) == n
  {
    var d := Digits(n, 8);
    assert d[..4] + d[4..] == d;
    PowersOf256();
    NumberAppend(d[..4], d[4..]);
    NumberOfDigits(n, 8);
  }

  /** Masking twice with the same key is no masking. */
  lemma UnmaskMasked(s: seq<Octet>, h: nat, key: seq<Octet>, data: seq<Octet>)
    requires |key| == 4 <= h && h + |data| <= |s|
    requires s[h - 4..h] == key && s[h..h + |data|] == Masked(data, key)
    ensures Unmasked(s, h, |data|) == data
  {
    hide Xor;
    forall i | 0 <= i < |data|
      ensures Unmasked(s, h, |data|)[i] == data[i]
    {
      assert s[h + i] == s[h..h + |data|][i];
      assert s[h - 4 + i % 4] == s[h - 4..h][i % 4];
      XorTwice(data[i], key[i % 4]);
    }
  }

  /** Parsing undoes framing, whatever follows the frame. */
  lemma ParseFrame(f: Frame, after: seq<Octet>)
    requires ValidFrame(f)
    ensures Parse(FrameText(f) + after) == Some(Parsed(f.flags, f.data, |FrameText(f)|))
  {
    hide Lengths, FrameHead, Masked, Unmasked;
    HeadEnds(f);
    var s, h, n := FrameText(f) + after, |FrameHead(f)|, |f.data|;
    var body := if f.mask.Some? then Masked(f.data, f.mask.value) else f.data;
    ThreeParts(FrameHead(f), body, after);
    HeadLengths(f, s);
    if f.mask.Some? {
      assert s[h - 4..h] == FrameHead(f)[h - 4..];
      UnmaskMasked(s, h, f.mask.value, f.data);
    }
  }

  lemma ThreeParts(a: seq<Octet>, b: seq<Octet>, c: seq<Octet>)
    ensures a <= a + b + c && (a + b + c)[|a|..|a| + |b|] == b
    ensures forall i :: 0 <= i <= |a| ==> (a + b + c)[i..|a|] == a[i..]
  {}

  lemma HeadEnds(f: Frame)
    requires Encodable(f)
    ensures var h := |FrameHead(f)|; f.mask.Some? ==> |f.mask.value| == 4 <= h && FrameHead(f)[h - 4..] == f.mask.value
  {}

  /** A frame whose data is too long is never taken. */
  lemma TooLong(f: Frame, after: seq<Octet>)
    requires Encodable(f) && |f.data| > MAX_DATA
    ensures Parse(FrameText(f) + after) == None
  {
    hide Lengths, FrameHead, Masked;
    var body := if f.mask.Some? then Masked(f.data, f.mask.value) else f.data;
    ThreeParts(FrameHead(f), body, after);
    HeadLengths(f, FrameText(f) + after);
  }

  /** A frame is not taken before its last octet is there. */
  lemma ParsePrefix(f: Frame, s: seq<Octet>)
    requires ValidFrame(f) && s < FrameText(f)
    ensures Parse(s) == None
  {
    if Parse(s).Some? {
      var more := FrameText(f)[|s|..];
      assert s + more == FrameText(f) && FrameText(f) + [] == FrameText(f);
      ParseAppend(s, more);
      ParseFrame(f, []);
    }
  }

  /** The flags and the data so far of a message in fragments. */
  type Open = Option<(Octet, seq<Octet>)>

  predicate IsControl(flags: Octet) {
    Opcode(flags) == OP_CLOSE || Opcode(flags) == OP_PING || Opcode(flags) == OP_PONG
  }

  /**
   * Section 5.4: a message is one final frame, or a first frame and continuations of which the last
   * is final; final control frames may come in between, and nothing else.
   */
  predicate WellFormed(frames: seq<Frame>, open: Open)
    decreases |frames|
  {
    if frames == [] then open == None
    else
      var f, after := frames[0], frames[1..];
      var op := Opcode(f.flags);
      && ValidFrame(f)
      && if IsControl(f.flags) then IsFinal(f.flags) && WellFormed(after, open)
         else if open.None? then
           (op == OP_TEXT || op == OP_BINARY)
           && WellFormed(after, if IsFinal(f.flags) then None else Some((f.flags, f.data)))
         else
           op == OP_CONTINUE
           && WellFormed(after, if IsFinal(f.flags) then None else Some((open.value.0, open.value.1 + f.data)))
  }

  /** The messages of a well-formed stream: the flags of the first frame, and all its data. */
  function Messages(frames: seq<Frame>, open: Open): seq<Event>
    requires WellFormed(frames, open)
    decreases |frames|
  {
    if frames == [] then []
    else
      var f, after := frames[0], frames[1..];
      if IsControl(f.flags) then Messages(after, open)
      else
        var (flags, data) := if open.None? then (f.flags, f.data) else (open.value.0, open.value.1 + f.data);
        if IsFinal(f.flags) then [WsMsg(flags, data)] + Messages(after, None)
        else Messages(after, Some((flags, data)))
  }

  /** The messages among events. */
  function MessagesOf(events: seq<Event>): seq<Event> {
    if events == [] then []
    else (if events[0].WsMsg? then [events[0]] else []) + MessagesOf(events[1..])
  }

  lemma {:induction false} MessagesOfAppend(a: seq<Event>, b: seq<Event>)
    ensures MessagesOf(a + b) == MessagesOf(a) + MessagesOf(b)
    decreases |a|
  {
    if a == [] {
      assert a + b == b;
    } else {
      assert (a + b)[0] == a[0] && (a + b)[1..] == a[1..] + b;
      MessagesOfAppend(a[1..], b);
    }
  }

  function StreamText(frames: seq<Frame>): seq<Octet>
    requires forall i :: 0 <= i < |frames| ==> ValidFrame(frames[i])
    decreases |frames|
  {
    if frames == [] then []
    else
      assert ValidFrame(frames[0]);
      FrameText(frames[0]) + StreamText(frames[1..])
  }

  lemma {:induction false} FramesValid(frames: seq<Frame>, open: Open)
    requires WellFormed(frames, open)
    ensures forall i :: 0 <= i < |frames| ==> ValidFrame(frames[i])
    decreases |frames|
  {
    if frames != [] {
      var f := frames[0];
      var next := if IsControl(f.flags) then open else if IsFinal(f.flags) then None
                  else if open.None? then Some((f.flags, f.data)) else Some((open.value.0, open.value.1 + f.data));
      FramesValid(frames[1..], next);
      forall i | 0 <= i < |frames|
        ensures ValidFrame(frames[i])
      {
        assert i > 0 ==> frames[i] == frames[1..][i - 1];
      }
    }
  }

  /** What the buffer keeps of an open message. */
  function KeptOf(open: Open): seq<Octet> {
    if open.None? then [] else [open.value.0] + open.value.1
  }

  lemma FrameMessages(p: Parsed)
    ensures MessagesOf(FrameEvents(p.flags, p.data))
            == if (Opcode(p.flags) == OP_TEXT || Opcode(p.flags) == OP_BINARY) && IsFinal(p.flags)
               then [WsMsg(p.flags, p.data)] else []
  {
    var ctl := WsCtl(p.flags, p.data);
    MessagesOfAppend([Send(p.data, OP_PONG)], [ctl]);
    MessagesOfAppend([ctl], [Send([], OP_CLOSE)]);
    assert [Send(p.data, OP_PONG), ctl] == [Send(p.data, OP_PONG)] + [ctl];
    assert [ctl, Send([], OP_CLOSE)] == [ctl] + [Send([], OP_CLOSE)];
  }

  lemma KeepFrame(open: Open, f: Frame)
    requires ValidFrame(f)
    requires IsControl(f.flags) ==> IsFinal(f.flags)
    requires !IsControl(f.flags) ==>
               (if open.None? then Opcode(f.flags) == OP_TEXT || Opcode(f.flags) == OP_BINARY
                   else Opcode(f.flags) == OP_CONTINUE)
    ensures var (kept, events) := Keep(KeptOf(open), Parsed(f.flags, f.data, |FrameText(f)|));
            var (flags, data) := if open.None? then (f.flags, f.data) else (open.value.0, open.value.1 + f.data);
            if IsControl(f.flags) then kept == KeptOf(open) && MessagesOf(events) == []
            else if IsFinal(f.flags) then kept == [] && MessagesOf(events) == [WsMsg(flags, data)]
            else kept == KeptOf(Some((flags, data))) && MessagesOf(events) == []
  {
    hide FrameEvents, FrameText;
    var p := Parsed(f.flags, f.data, |FrameText(f)|);
    var (kept, events) := Keep(KeptOf(open), p);
    FrameMessages(p);
    assert FrameEvents(p.flags, p.data) + [] == FrameEvents(p.flags, p.data);
    if open.Some? {
      var all := KeptOf(open) + f.data;
      assert all[0] == open.value.0 && all[1..] == open.value.1 + f.data;
      assert all == [open.value.0] + (open.value.1 + f.data);
      MessagesOfAppend(FrameEvents(p.flags, p.data), [WsMsg(open.value.0, open.value.1 + f.data)]);
    } else {
      assert [] + [f.flags] + f.data == [f.flags] + f.data;
    }
  }

  lemma ParseNothing()
    ensures Parse([]) == None
  {}

  lemma KeptOfNone()
    ensures KeptOf(None) == []
  {}

  /**
   * Of a well-formed stream exactly its messages are delivered, each once and whole, and nothing
   * stays in the buffer.
   */
  lemma {:induction false} Reassembly(frames: seq<Frame>, open: Open, before: seq<Event>)
    requires WellFormed(frames, open) && forall i :: 0 <= i < |frames| ==> ValidFrame(frames[i])
    ensures var r := Drain(Reader(KeptOf(open), StreamText(frames), before));
            r.kept == [] && r.rest == [] && MessagesOf(r.events) == MessagesOf(before) + Messages(frames, open)
    decreases |frames|
  {
    hide Keep, FrameText, MessagesOf, KeptOf, Parse;
    if frames == [] {
      ParseNothing();
      assert MessagesOf(before) + [] == MessagesOf(before);
      assert KeptOf(None) == [] by { KeptOfNone(); }
    } else {
      var f, s := frames[0], StreamText(frames);
      var after := StreamText(frames[1..]);
      ParseFrame(f, after);
      KeepFrame(open, f);
      var (kept, events) := Keep(KeptOf(open), Parsed(f.flags, f.data, |FrameText(f)|));
      assert s[|FrameText(f)|..] == after;
      var (flags, data) := if open.None? then (f.flags, f.data) else (open.value.0, open.value.1 + f.data);
      var next := if IsControl(f.flags) then open else if IsFinal(f.flags) then None else Some((flags, data));
      assert forall i :: 0 <= i < |frames[1..]| ==> frames[1..][i] == frames[i + 1];
      KeptOfNone();
      Reassembly(frames[1..], next, before + events);
      MessagesOfAppend(before, events);
      assert MessagesOf(before) + MessagesOf(events) + Messages(frames[1..], next)
             == MessagesOf(before) + (MessagesOf(events) + Messages(frames[1..], next));
    }
  }

  /** However the stream comes in, its messages are delivered and nothing else. */
  lemma MessagesAreDelivered(frames: seq<Frame>, cuts: seq<seq<Octet>>)
    requires WellFormed(frames, None) && forall i :: 0 <= i < |frames| ==> ValidFrame(frames[i])
    requires Joined(cuts) == StreamText(frames)
    ensures var r := ReceiveAll(Reader([], [], []), cuts);
            r.kept == [] && r.rest == [] && MessagesOf(r.events) == Messages(frames, None)
  {
    ReadsDoNotMatter(Reader([], [], []), cuts);
    Reassembly(frames, None, []);
    assert [] + StreamText(frames) == StreamText(frames);
    assert [] + Messages(frames, None) == Messages(frames, None);
  }
}
