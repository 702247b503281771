/** mongoose's WebSocket handler on the buffers of a connection, which it changes in place. */
module WsConnection {
  import opened Bytes
  import opened Octets
  import opened Arithmetic
  import opened WebSocket

  function Deleted(s: seq<Octet>, ofs: nat, n: nat): seq<Octet> {
    if ofs > |s| then s else s[..ofs] + s[if ofs + n > |s| then |s| else ofs + n..]
  }

  /** struct mg_iobuf: len octets of a block that may be larger. */
  class IoBuf {
    var buf: array<Octet>
    var len: nat

    constructor ()
      ensures Valid() && Contents() == [] && fresh(buf)
    {
      buf, len := new Octet[0], 0;
    }

    ghost predicate Valid()
      reads this
    {
      len <= buf.Length
    }

    ghost function Contents(): (s: seq<Octet>)
      requires Valid()
      reads this, buf
      ensures |s| == len
    {
      buf[..len]
    }

    /** mg_iobuf_add at the end: the block is replaced by a larger one if it is full. */
    method Add(data: seq<Octet>)
      requires Valid()
      modifies this, buf
      ensures Valid() && Contents() == old(Contents()) + data
      ensures buf == old(buf) || fresh(buf)
    {
      if len + |data| > buf.Length {
        var larger := new Octet[len + |data|];
        forall k | 0 <= k < len {
          larger[k] := buf[k];
        }
        buf := larger;
      }
      forall k | 0 <= k < |data| {
        buf[len + k] := data[k];
      }
      len := len + |data|;
    }

    /** memmove of what is after `from + count` down to `from`. */
    method MoveDown(from: nat, count: nat)
      requires Valid() && from + count <= len
      modifies buf
      ensures buf[..len - count] == old(buf[..from]) + old(buf[from + count..len])
    {
      forall k | from <= k < len - count {
        buf[k] := buf[k + count];
      }
    }

    /** zeromem */
    method Zero(from: nat, end: nat)
      requires from <= end <= buf.Length
      modifies buf
      ensures buf[..from] == old(buf[..from])
    {
      forall k | from <= k < end {
        buf[k] := 0;
      }
    }

    /** mg_iobuf_del: what follows is moved down over what is deleted, and zeros are put behind it. */
    method Del(ofs: nat, n: nat)
      requires Valid()
      modifies this`len, buf
      ensures Valid()
      ensures Contents() == Deleted(old(Contents()), ofs, n)
    {
      var from := if ofs > len then len else ofs;
      var count := if from + n > len then len - from else n;
      ghost var s := Contents();
      assert s[..from] == buf[..from] && s[from + count..] == buf[from + count..len];
      MoveDown(from, count);
      Zero(len - count, len);
      len := len - count;
      assert from < ofs ==> s[..from] + s[from + count..] == s;
    }

    /** The header of ws_process: the lengths of the frame at ofs, and its flags. */
    method Header(ofs: nat) returns (msg: Msg, maskLen: nat)
      requires Valid() && ofs <= len
      ensures (msg.headerLen, msg.dataLen) == Lengths(Contents()[ofs..])
      ensures len - ofs >= 2 ==> msg.flags == Contents()[ofs] && maskLen == MaskLen(Contents()[ofs + 1])
      ensures len - ofs < 2 ==> maskLen == 0
    {
      hide Number;
      ghost var s := Contents()[ofs..];
      assert forall i :: 0 <= i < |s| ==> s[i] == buf[ofs + i];
      var headerLen, dataLen, flags: Octet := 0, 0, 0;
      maskLen := 0;
      if len - ofs >= 2 {
        var n: nat := buf[ofs + 1] % 128;
        maskLen := MaskLen(buf[ofs + 1]);
        flags := buf[ofs];
        assert s[0] == buf[ofs] && s[1] == buf[ofs + 1];
        if n < 126 && len - ofs >= maskLen {
          headerLen, dataLen := 2 + maskLen, n;
        } else if n == 126 && len - ofs >= 4 + maskLen {
          assert buf[ofs + 2..ofs + 4] == s[2..4];
          headerLen, dataLen := 4 + maskLen, Number(buf[ofs + 2..ofs + 4]);
        } else if len - ofs >= 10 + maskLen {
          assert buf[ofs + 2..ofs + 6] == s[2..6] && buf[ofs + 6..ofs + 10] == s[6..10];
          headerLen := 10 + maskLen;
          dataLen := Number(buf[ofs + 2..ofs + 6]) * 0x1_0000_0000 + Number(buf[ofs + 6..ofs + 10]);
        }
      }
      msg := Msg(flags, headerLen, dataLen);
    }

    /** The loop of ws_process: n octets from p are combined with the key before them, in place. */
    method Unmask(p: nat, n: nat)
      requires Valid() && 4 <= p && p + n <= len
      modifies buf
      ensures Contents()[..p] == old(Contents())[..p] && Contents()[p + n..] == old(Contents())[p + n..]
      ensures Contents()[p..p + n] == Unmasked(old(Contents()), p, n)
    {
      hide Xor;
      for i := 0 to n
        invariant forall k :: 0 <= k < i ==> buf[p + k] == Xor(old(buf[p + k]), old(buf[p - 4 + k % 4]))
        invariant forall k :: 0 <= k < buf.Length && !(p <= k < p + i) ==> buf[k] == old(buf[k])
      {
        buf[p + i] := Xor(buf[p + i], buf[p - 4 + i % 4]);
      }
    }

    /** mg_ws_send. A client masks what it has just put into the buffer, in place. */
    method WsSend(data: seq<Octet>, op: nat, key: Option<seq<Octet>>)
      requires Valid() && op < 128 && (key.Some? ==> |key.value| == 4) && |data| <= 0xFFFF_FFFF_FFFF_FFFF
      modifies this, buf
      ensures Valid() && (buf == old(buf) || fresh(buf))
      ensures Contents() == old(Contents()) + FrameText(SentFrame(data, op, key))
    {
      hide MakeHeader, FrameHead, Unmasked, Masked;
      HeaderIsHead(data, op, key);
      ghost var before, f := Contents(), SentFrame(data, op, key);
      Add(MakeHeader(|data|, op, key));
      Add(data);
      ghost var c := Contents();
      ThreeParts(before + FrameHead(f), data, []);
      HeadEnds(f);
      if key.Some? {
        ghost var h := |before + FrameHead(f)|;
        assert c[h - 4..h] == key.value by { assert c[..h] == before + FrameHead(f); }
        Unmask(len - |data|, |data|);
        MaskIsUnmask(c, h, key.value, data);
        assert Contents() == c[..h] + Masked(data, key.value);
      }
      assert before + FrameHead(f) + (if key.Some? then Masked(data, key.value) else data) == before + FrameText(f);
    }

    /** ws_process on the octets from ofs: a complete masked frame is unmasked where it is. */
    method Process(ofs: nat) returns (msg: Msg, used: nat)
      requires Valid() && ofs <= len
      modifies buf
      ensures Valid() && len == old(len)
      ensures match Parse(old(Contents())[ofs..])
              case None => used == 0 && Contents() == old(Contents())
              case Some(p) =>
                && used == p.used == msg.headerLen + msg.dataLen <= len - ofs && msg.headerLen >= 2
                && msg.flags == p.flags && msg.dataLen == |p.data|
                && Contents()[..ofs + msg.headerLen] == old(Contents())[..ofs + msg.headerLen]
                && Contents()[ofs + msg.headerLen..ofs + used] == p.data
                && Contents()[ofs + used..] == old(Contents())[ofs + used..]
                && Contents()[ofs] == p.flags
    {
      hide Lengths, Unmasked;
      ghost var c, s := Contents(), Contents()[ofs..];
      var maskLen;
      msg, maskLen := Header(ofs);
      LengthsAppend(s, []);
      LengthsShort(s);
      if msg.headerLen == 0 || msg.dataLen > MAX_DATA || msg.headerLen + msg.dataLen > len - ofs {
        return msg, 0;
      }
      assert c[ofs + msg.headerLen..ofs + msg.headerLen + msg.dataLen] == s[msg.headerLen..msg.headerLen + msg.dataLen];
      if maskLen > 0 {
        Unmask(ofs + msg.headerLen, msg.dataLen);
        UnmaskedAt(c, ofs, msg.headerLen, msg.dataLen);
      }
      return msg, msg.headerLen + msg.dataLen;
    }
  }

  /** The length form mkhdr chooses. */
  function FormFor(n: nat): Form {
    if n < 126 then Short else if n < 65536 then Medium else Long
  }

  /** The frame mg_ws_send sends: final, and masked with a fresh key by a client. */
  function SentFrame(data: seq<Octet>, op: nat, key: Option<seq<Octet>>): Frame
    requires op < 128
  {
    Frame(128 + op, key, FormFor(|data|), data)
  }

  /** mkhdr. The key is what mg_random gives a client. */
  function MakeHeader(n: nat, op: nat, key: Option<seq<Octet>>): seq<Octet>
    requires op < 128
  {
    var bit := if key.Some? then 128 else 0;
    (if n < 126 then [128 + op, bit + n]
     else if n < 65536 then [128 + op, bit + 126] + Digits(n, 2)
     else [128 + op, bit + 127] + Digits(n / 0x1_0000_0000, 4) + Digits(n % 0x1_0000_0000, 4))
    + (if key.Some? then key.value else [])
  }

  lemma HeaderIsHead(data: seq<Octet>, op: nat, key: Option<seq<Octet>>)
    requires op < 128 && (key.Some? ==> |key.value| == 4) && |data| <= 0xFFFF_FFFF_FFFF_FFFF
    ensures MakeHeader(|data|, op, key) == FrameHead(SentFrame(data, op, key))
  {
    hide Digits;
    PowersOf256();
    SplitDigits(|data|, 8, 4, Power256(4), |data| / 0x1_0000_0000, |data| % 0x1_0000_0000);
  }

  /** Section 5.2: what is sent is final, carries the opcode and the data, and has the shortest of the three lengths. */
  lemma SentIsShortest(data: seq<Octet>, op: nat, key: Option<seq<Octet>>, form: Form)
    requires op < 128 && (key.Some? ==> |key.value| == 4) && Encodable(Frame(128 + op, key, form, data))
    ensures var f := SentFrame(data, op, key);
            && f == Frame(128 + op, key, f.form, data) && Encodable(f)
            && |FrameHead(f)| <= |FrameHead(Frame(128 + op, key, form, data))|
  {
    hide Digits;
  }

  /** The bytes mg_ws_send puts out are a frame, and a reader takes exactly that frame. */
  lemma SentIsRead(data: seq<Octet>, op: nat, key: Option<seq<Octet>>, after: seq<Octet>)
    requires op < 16 && (key.Some? ==> |key.value| == 4) && |data| <= MAX_DATA
    ensures var s := FrameText(SentFrame(data, op, key));
            Parse(s + after) == Some(Parsed(128 + op, data, |s|)) && IsFinal(128 + op) && Opcode(128 + op) == op
  {
    hide Parse, FrameText;
    ParseFrame(SentFrame(data, op, key), after);
  }

  /** Masking is the same loop as unmasking. */
  lemma MaskIsUnmask(s: seq<Octet>, h: nat, key: seq<Octet>, data: seq<Octet>)
    requires |key| == 4 <= h && h + |data| <= |s| && s[h - 4..h] == key && s[h..h + |data|] == data
    ensures Unmasked(s, h, |data|) == Masked(data, key)
  {
    hide Xor;
    forall i | 0 <= i < |data|
      ensures Unmasked(s, h, |data|)[i] == Masked(data, key)[i]
    {
      assert s[h + i] == s[h..h + |data|][i];
      assert s[h - 4 + i % 4] == s[h - 4..h][i % 4];
    }
  }

  lemma LengthsShort(s: seq<Octet>)
    ensures |s| < 2 ==> Lengths(s).0 == 0
    ensures Lengths(s).0 == 0 ==> Lengths(s).1 == 0
  {}

  /** Unmasking does not depend on what is before the frame. */
  lemma UnmaskedAt(c: seq<Octet>, ofs: nat, h: nat, d: nat)
    requires 4 <= h && ofs + h + d <= |c|
    ensures Unmasked(c, ofs + h, d) == Unmasked(c[ofs..], h, d)
  {}

  /** Some event is a failure. */
  predicate Fails(events: seq<Event>) {
    exists i :: 0 <= i < |events| && events[i].Fail?
  }

  lemma FailsAppend(a: seq<Event>, b: seq<Event>)
    ensures Fails(a + b) <==> Fails(a) || Fails(b)
  {
    if i :| 0 <= i < |b| && b[i].Fail? { assert (a + b)[|a| + i].Fail?; }
    if i :| 0 <= i < |a| && a[i].Fail? { assert (a + b)[i].Fail?; }
  }

  lemma NoneFails()
    ensures !Fails([])
  {}

  /** Events after some others, in two parts */
  lemma LaterEvents(before: seq<Event>, mid: seq<Event>, after: seq<Event>)
    requires before <= mid <= after
    ensures before <= after && (Fails(after[|before|..]) <==> Fails(mid[|before|..]) || Fails(after[|mid|..]))
    ensures forall e :: e in after[|before|..] <==> e in mid[|before|..] || e in after[|mid|..]
  {
    assert after[|before|..] == mid[|before|..] + after[|mid|..];
    FailsAppend(mid[|before|..], after[|mid|..]);
    hide Fails;
  }

  /** The part of struct mg_connection that mg_ws_cb uses, and the calls it has made. */
  class Connection {
    const recv: IoBuf
    var ofs: nat             // pfn_data
    var events: seq<Event>
    var isClosing: bool
    var isDraining: bool

    constructor ()
      ensures Valid() && fresh(recv) && fresh(recv.buf) && View() == Reader([], [], [])
      ensures !isClosing && !isDraining
    {
      recv := new IoBuf();
      ofs, events, isClosing, isDraining := 0, [], false, false;
    }

    ghost predicate Valid()
      reads this, recv, recv.buf
    {
      recv.Valid() && ofs <= recv.len
    }

    ghost function View(): Reader
      requires Valid()
      reads this, recv, recv.buf
    {
      Reader(recv.Contents()[..ofs], recv.Contents()[ofs..], events)
    }

    /**
     * Since the events before, the connection has begun to drain exactly if a close frame has been sent, and to
     * close exactly if an opcode was unknown.
     */
    ghost predicate Ends(wasDraining: bool, wasClosing: bool, before: seq<Event>)
      reads this
    {
      && before <= events
      && isDraining == (wasDraining || Send([], 8) in events[|before|..])
      && isClosing == (wasClosing || Fails(events[|before|..]))
    }

    /** The switch of mg_ws_cb on the opcode of a frame. */
    method Call(flags: Octet, data: seq<Octet>)
      modifies this
      ensures events == old(events) + FrameEvents(flags, data) && ofs == old(ofs)
      ensures isDraining == (old(isDraining) || Send([], OP_CLOSE) in FrameEvents(flags, data))
      ensures isClosing == (old(isClosing) || Fails(FrameEvents(flags, data)))
    {
      var op := Opcode(flags);
      if op == OP_CONTINUE || op == OP_PONG {
        events := events + [WsCtl(flags, data)];
      } else if op == OP_PING {
        events := events + [Send(data, OP_PONG), WsCtl(flags, data)];
      } else if op == OP_TEXT || op == OP_BINARY {
        if IsFinal(flags) {
          events := events + [WsMsg(flags, data)];
        } else {
          assert events + [] == events;
        }
      } else if op == OP_CLOSE {
        events := events + [WsCtl(flags, data), Send([], OP_CLOSE)];
        isDraining := true;
      } else {
        events := events + [Fail(op)];
        isClosing := true;
        assert FrameEvents(flags, data)[0].Fail?;
      }
    }

    /**
     * What mg_ws_cb does to the buffer after a frame: headers of fragments are stripped, other
     * frames removed, and the end of a message delivers what has been kept.
     */
    method Strip(msg: Msg, ghost data: seq<Octet>, ghost rest: seq<Octet>)
      requires Valid() && msg.headerLen >= 2 && msg.dataLen == |data|
      requires ofs + msg.headerLen + msg.dataLen <= recv.len && recv.Contents()[ofs] == msg.flags
      requires recv.Contents()[ofs + msg.headerLen..] == data + rest
      modifies this, recv, recv.buf
      ensures Valid() && unchanged(this`isClosing, this`isDraining) && recv.buf == old(recv.buf)
      ensures var (kept, more) := Store(old(View().kept), msg.flags, data);
              View() == Reader(kept, rest, old(events) + more)
    {
      var final, op := IsFinal(msg.flags), Opcode(msg.flags);
      if !final || op == 0 {
        StripHeader(msg, data, rest);
      }
      if final && op != 0 {
        ghost var c := recv.Contents();
        recv.Del(ofs, msg.headerLen + msg.dataLen);
        assert c[ofs + (msg.headerLen + msg.dataLen)..] == c[ofs + msg.headerLen..][msg.dataLen..] == rest;
        assert recv.Contents() == c[..ofs] + rest;
        assert events + [] == events;
      }
      if final && op == 0 {
        Deliver(msg.flags);
      } else {
        assert events + [] == events;
      }
    }

    /** A fragment: the first one keeps its flags, and all keep their data. */
    method StripHeader(msg: Msg, ghost data: seq<Octet>, ghost rest: seq<Octet>)
      requires Valid() && msg.headerLen >= 2 && msg.dataLen == |data|
      requires ofs + msg.headerLen + msg.dataLen <= recv.len && recv.Contents()[ofs] == msg.flags
      requires recv.Contents()[ofs + msg.headerLen..] == data + rest
      modifies this`ofs, recv, recv.buf
      ensures Valid() && recv.buf == old(recv.buf)
      ensures var kept := old(View().kept);
              View() == Reader(if Opcode(msg.flags) != 0 then kept + [msg.flags] + data else kept + data, rest, events)
    {
      ghost var c, kept := recv.Contents(), View().kept;
      var headerLen, len := msg.headerLen, msg.headerLen + msg.dataLen;
      if Opcode(msg.flags) != 0 {
        ofs, len, headerLen := ofs + 1, len - 1, headerLen - 1;
        assert c[..ofs] == kept + [msg.flags];
      }
      ghost var front := c[..ofs];
      recv.Del(ofs, headerLen);
      assert recv.Contents() == front + (data + rest);
      Regroup(front, data, rest);
      len := len - headerLen;
      ofs := ofs + len;
    }

    /** The last fragment: the message is what has been kept after the flags. */
    method Deliver(flags: Octet)
      requires Valid()
      modifies this`events, this`ofs, recv, recv.buf
      ensures Valid() && recv.buf == old(recv.buf)
      ensures var kept := old(View().kept);
              View() == Reader([], old(View().rest),
                               old(events) + [if kept == [] then Stray(flags) else WsMsg(kept[0], kept[1..])])
    {
      ghost var c := recv.Contents();
      if ofs == 0 {
        events := events + [Stray(flags)];
      } else {
        assert recv.buf[1..ofs] == c[..ofs][1..];
        events := events + [WsMsg(recv.buf[0], recv.buf[1..ofs])];
      }
      recv.Del(0, ofs);
      assert recv.Contents() == c[ofs..];
      ofs := 0;
    }

    /** One round of the loop of mg_ws_cb: the frame at ofs, if it is complete. */
    method HandleFrame() returns (more: bool)
      requires Valid()
      modifies this, recv, recv.buf
      ensures Valid() && recv.buf == old(recv.buf) && Ends(old(isDraining), old(isClosing), old(events))
      ensures match Parse(old(View().rest))
              case None => !more && View() == old(View())
              case Some(p) =>
                var (kept, events) := Keep(old(View().kept), p);
                more && View() == Reader(kept, old(View().rest)[p.used..], old(View().events) + events)
    {
      hide Parse, Store, FrameEvents;
      ghost var c, r := recv.Contents(), View();
      var msg, used := recv.Process(ofs);
      if used == 0 {
        return false;
      }
      ghost var p := Parse(r.rest).value;
      FrameInPlace(recv.Contents(), c, ofs, ofs + msg.headerLen, ofs + used);
      Handle(msg, p.data, r.rest[p.used..]);
      return true;
    }

    /** The body of the loop, on a frame that Process has left in the buffer. */
    method Handle(msg: Msg, ghost data: seq<Octet>, ghost rest: seq<Octet>)
      requires Valid() && msg.headerLen >= 2 && msg.dataLen == |data|
      requires ofs + msg.headerLen + msg.dataLen <= recv.len && recv.Contents()[ofs] == msg.flags
      requires recv.Contents()[ofs + msg.headerLen..] == data + rest
      modifies this, recv, recv.buf
      ensures Valid() && recv.buf == old(recv.buf) && Ends(old(isDraining), old(isClosing), old(events))
      ensures var (kept, more) := Keep(old(View().kept), Parsed(msg.flags, data, 1));
              View() == Reader(kept, rest, old(events) + more)
    {
      hide Store, FrameEvents;
      var h := ofs + msg.headerLen;
      assert recv.buf[h..h + msg.dataLen] == recv.Contents()[h..][..msg.dataLen] == data;
      Call(msg.flags, recv.buf[h..h + msg.dataLen]);
      Strip(msg, data, rest);
      ghost var told, stored := FrameEvents(msg.flags, data), Store(old(View().kept), msg.flags, data).1;
      InOrder(old(events), told, stored);
      FailsAppend(told, stored);
      StoresMessages(old(View().kept), msg.flags, data);
      assert events[|old(events)|..] == told + stored;
    }

    /** MG_EV_READ in mg_ws_cb, after the handshake. */
    method OnRead()
      requires Valid()
      modifies this, recv, recv.buf
      ensures Valid() && recv.buf == old(recv.buf)
      ensures View() == Drain(old(View()))
      ensures Ends(old(isDraining), old(isClosing), old(events))
    {
      hide Parse, Keep, Fails;
      NoneFails();
      var more := true;
      assert events[|events|..] == [];
      while more
        invariant Valid() && recv.buf == old(recv.buf)
        invariant Drain(View()) == Drain(old(View()))
        invariant !more ==> View() == Drain(View())
        invariant Ends(old(isDraining), old(isClosing), old(events))
        decreases |View().rest|, more
      {
        ghost var mid := events;
        more := HandleFrame();
        LaterEvents(old(events), mid, events);
      }
    }

    /** Octets that come in, and the event for them. */
    method Receive(data: seq<Octet>)
      requires Valid()
      modifies this, recv, recv.buf
      ensures Valid() && (recv.buf == old(recv.buf) || fresh(recv.buf))
      ensures View() == WebSocket.Receive(old(View()), data)
      ensures Ends(old(isDraining), old(isClosing), old(events))
    {
      ghost var c, r := recv.Contents(), View();
      recv.Add(data);
      assert recv.Contents()[..ofs] == c[..ofs] && recv.Contents()[ofs..] == c[ofs..] + data;
      OnRead();
    }
  }

  /** Unmasking has changed the data of the frame only. */
  lemma FrameInPlace(c': seq<Octet>, c: seq<Octet>, ofs: nat, h: nat, end: nat)
    requires ofs <= h <= end <= |c| == |c'| && c'[..h] == c[..h] && c'[end..] == c[end..]
    ensures c'[..ofs] == c[..ofs]
    ensures c'[h..] == c'[h..end] + c[ofs..][end - ofs..]
  {
    assert c'[..h][..ofs] == c'[..ofs] && c[..h][..ofs] == c[..ofs];
    assert c[ofs..][end - ofs..] == c[end..];
  }

  /** What is delivered from the buffer is neither sent nor a failure. */
  lemma StoresMessages(kept: seq<Octet>, flags: Octet, data: seq<Octet>)
    ensures !Fails(Store(kept, flags, data).1) && Send([], 8) !in Store(kept, flags, data).1
  {}

  lemma InOrder(a: seq<Event>, b: seq<Event>, c: seq<Event>)
    ensures a + b + c == a + (b + c)
  {}

  lemma Regroup(front: seq<Octet>, data: seq<Octet>, rest: seq<Octet>)
    ensures front + (data + rest) == front + data + rest
    ensures (front + data + rest)[..|front + data|] == front + data
    ensures (front + data + rest)[|front + data|..] == rest
  {}
}
