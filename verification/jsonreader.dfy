/** parson's parser as it runs: one pointer into the text, moved along by every routine. */
module JsonReader {
  import opened Bytes
  import opened ObjectTable
  import opened JsonText

  // The text between the quotes

  /** The quoted string of n characters at the start of s, as skip_quotes found it. */
  ghost predicate Quoted(s: seq<Byte>, n: nat) {
    n < |s| && SkipBody(s) == Some(s[n + 1..])
  }

  lemma PlainSkipped(s: seq<Byte>)
    requires Cur(s) != '"' && Cur(s) != '\\' && Cur(s) != '\0'
    ensures SkipBody(s) == SkipBody(s[1..])
  {}

  lemma HexSkipped(s: seq<Byte>)
    requires Hex4(s).Some?
    ensures SkipBody(s) == SkipBody(s[4..])
  {
    PlainSkipped(s);
    PlainSkipped(s[1..]);
    assert s[1..][1..] == s[2..] && s[2..][1..] == s[3..] && s[3..][1..] == s[4..];
    PlainSkipped(s[2..]);
    PlainSkipped(s[3..]);
  }

  lemma EscapeSkipped(s: seq<Byte>)
    requires Cur(s) == '\\' && Cur(s[1..]) != '\0'
    ensures |s| >= 2 && SkipBody(s) == SkipBody(s[2..])
  {}

  /** What process_string reads as one character, skip_quotes skipped without meeting the closing quote. */
  lemma OneSkipped(s: seq<Byte>)
    requires Cur(s) != '\0' && Cur(s) != '"' && ProcessOne(s).Some?
    ensures SkipBody(s) == SkipBody(s[ProcessOne(s).value.1..])
  {
    if s[0] != '\\' {
      PlainSkipped(s);
    } else {
      EscapeSkipped(s);
      if Cur(s[1..]) == 'u' {
        var t := s[2..];
        HexSkipped(t);
        var used := Utf16Escape(t).value.1;
        if used == 10 {
          assert t[5..] == t[4..][1..] && t[6..] == t[4..][2..];
          EscapeSkipped(t[4..]);
          HexSkipped(t[6..]);
          assert t[6..][4..] == t[10..];
        }
        assert t[used..] == s[used + 2..];
      }
    }
  }

  /** So a character of a quoted string lies inside the quotes, and the rest is still a quoted string. */
  lemma OneInside(s: seq<Byte>, n: nat)
    requires Quoted(s, n) && n > 0
    requires ProcessOne(s).Some?
    ensures Cur(s) != '\0' && Cur(s) != '"'
    ensures var used := ProcessOne(s).value.1; used <= n && Quoted(s[used..], n - used)
  {
    OneSkipped(s);
    var used := ProcessOne(s).value.1;
    assert s[used..][n + 1 - used..] == s[n + 1..];
  }

  /** Inside the quotes there is neither a quote nor the end of the text. */
  lemma InsideQuotes(s: seq<Byte>, n: nat)
    requires Quoted(s, n)
    ensures Cur(s) != '\0'
    ensures Cur(s) == '"' <==> n == 0
  {}

  // How far process_string looks. A count of n means the first n places of what is left, of which the
  // last may be the terminating zero.

  /** parse_utf16_hex looks at four characters, or up to the terminating zero. */
  function HexLook(s: seq<Byte>): (k: nat)
    ensures 1 <= k <= 4 && k <= |s| + 1
  {
    if Cur(s) == '\0' then 1
    else if Cur(s[1..]) == '\0' then 2
    else if Cur(s[2..]) == '\0' then 3
    else 4
  }

  /** The second escape of a surrogate pair is begun after a lead. */
  predicate PairBegun(s: seq<Byte>) {
    && Hex4(s).Some? && 0xD800 <= Hex4(s).value <= 0xDBFF
    && Cur(s[4..]) == '\\' && Cur(s[5..]) == 'u'
  }

  /** parse_utf16 after the u */
  function EscapeLook(s: seq<Byte>): (k: nat)
    ensures 1 <= k <= 10 && k <= |s| + 1
  {
    if Hex4(s).None? || !(0xD800 <= Hex4(s).value <= 0xDBFF) then HexLook(s)
    else if Cur(s[4..]) != '\\' then 5
    else if Cur(s[5..]) != 'u' then 6
    else 6 + HexLook(s[6..])
  }

  /** One round of process_string */
  function OneLook(s: seq<Byte>): (k: nat)
    requires Cur(s) != '\0'
    ensures 1 <= k <= |s| + 1
  {
    if s[0] != '\\' then 1 else if Cur(s[1..]) != 'u' then 2 else 2 + EscapeLook(s[2..])
  }

  /**
   * process_string, which looks at the character after those it processes, too. It never looks past the terminating
   * zero.
   */
  function Look(s: seq<Byte>, n: int): (k: nat)
    ensures 1 <= k <= |s| + 1
    decreases |s|
  {
    if Cur(s) == '\0' || n <= 0 then 1
    else
      match ProcessOne(s)
      case None => OneLook(s)
      case Some((_, used)) => Further(OneLook(s), used + Look(s[used..], n - used))
  }

  function Further(a: nat, b: nat): nat {
    if a < b then b else a
  }

  /** A round has room if there are three characters after the first digit of each escape before the closing quote. */
  predicate OneHasRoom(s: seq<Byte>, n: int) {
    Cur(s) == '\\' && Cur(s[1..]) == 'u' ==> n >= 5 && (PairBegun(s[2..]) ==> n >= 11)
  }

  /** Every escape that process_string comes to has room. */
  predicate HasRoom(s: seq<Byte>, n: int)
    decreases |s|
  {
    if Cur(s) == '\0' || n <= 0 then true
    else
      && OneHasRoom(s, n)
      && (ProcessOne(s).Some? ==> HasRoom(s[ProcessOne(s).value.1..], n - ProcessOne(s).value.1))
  }

  lemma {:induction false} BodyNotZero(s: seq<Byte>, n: nat, i: nat)
    requires Quoted(s, n) && i <= n
    ensures s[i] != '\0'
    decreases n
  {
    if n > 0 {
      var k := if s[0] == '\\' then 2 else 1;
      assert SkipBody(s) == SkipBody(s[k..]) && k <= n by { SkippedOne(s, n); }
      if i >= k {
        assert s[k..][n + 1 - k..] == s[n + 1..];
        BodyNotZero(s[k..], n - k, i - k);
      }
    }
  }

  /** skip_quotes goes on after one character, or after an escaped one, which is no closing quote. */
  lemma SkippedOne(s: seq<Byte>, n: nat)
    requires Quoted(s, n) && n > 0
    ensures s[0] != '\0' && s[0] != '"' && (s[0] == '\\' ==> Cur(s[1..]) != '\0')
    ensures var k := if s[0] == '\\' then 2 else 1; k <= n && SkipBody(s) == SkipBody(s[k..])
  {
    InsideQuotes(s, n);
  }

  /**
   * The hexadecimal digits of an escape at place i are looked for inside the quotes exactly if there are three places
   * more.
   */
  lemma HexLookInside(s: seq<Byte>, n: nat, i: nat)
    requires Quoted(s, n) && i <= n
    ensures i + HexLook(s[i..]) <= n + 1 <==> i + 3 <= n
  {
    BodyNotZero(s, n, i);
    if i + 1 <= n { BodyNotZero(s, n, i + 1); }
    if i + 2 <= n { BodyNotZero(s, n, i + 2); }
    assert s[i..][1..] == s[i + 1..];
    assert |s[i..]| >= 2 ==> s[i..][2..] == s[i + 2..];
  }

  /** One round looks no further than the closing quote exactly if it has room. */
  lemma OneLookInside(s: seq<Byte>, n: nat)
    requires Quoted(s, n) && n > 0 && Cur(s) != '\0'
    ensures OneLook(s) <= n + 1 <==> OneHasRoom(s, n)
  {
    hide HexLook, Hex4;
    SkippedOne(s, n);
    if s[0] == '\\' && Cur(s[1..]) == 'u' {
      var t := s[2..];
      HexLookInside(s, n, 2);
      if Hex4(t).Some? {
        HexInside(s, n);
        assert t[4..] == s[6..];
        if Cur(s[6..]) == '\\' {
          assert t[5..] == s[7..];
          if Cur(s[7..]) == 'u' {
            PairInside(s, n);
            assert t[6..] == s[8..];
            HexLookInside(s, n, 8);
          }
        }
      }
    }
  }

  /** Digits that are there are inside the quotes. */
  lemma HexInside(s: seq<Byte>, n: nat)
    requires Quoted(s, n) && n >= 2 && Cur(s) == '\\' && Cur(s[1..]) == 'u' && Hex4(s[2..]).Some?
    ensures n >= 6 && Quoted(s[6..], n - 6)
  {
    EscapeSkipped(s);
    HexSkipped(s[2..]);
    assert s[2..][4..] == s[6..];
    assert s[6..][n + 1 - 6..] == s[n + 1..];
  }

  lemma PairInside(s: seq<Byte>, n: nat)
    requires n >= 6 && |s| >= 7 && Quoted(s[6..], n - 6) && Cur(s[6..]) == '\\' && Cur(s[7..]) == 'u'
    ensures n >= 8
  {
    assert s[6..][1..] == s[7..];
    InsideQuotes(s[6..], n - 6);
    SkippedOne(s[6..], n - 6);
  }

  /** process_string looks behind the closing quote exactly if some escape it comes to has no room. */
  lemma {:induction false} LookInside(s: seq<Byte>, n: nat)
    requires Quoted(s, n)
    ensures Look(s, n) <= n + 1 <==> HasRoom(s, n)
    decreases n
  {
    hide OneLook, OneHasRoom, ProcessOne, Quoted;
    InsideQuotes(s, n);
    if n > 0 {
      OneLookInside(s, n);
      if ProcessOne(s).Some? {
        OneInside(s, n);
        var used := ProcessOne(s).value.1;
        LookInside(s[used..], n - used);
      }
    }
  }

  /** A string that is accepted is read inside its quotes. */
  lemma {:induction false} AcceptedHasRoom(s: seq<Byte>, n: nat)
    requires Quoted(s, n) && Process(s, n).Some?
    ensures HasRoom(s, n)
    decreases n
  {
    hide OneHasRoom, ProcessOne, Quoted;
    InsideQuotes(s, n);
    if n > 0 {
      OneInside(s, n);
      var used := ProcessOne(s).value.1;
      OneAcceptedHasRoom(s, n);
      AcceptedHasRoom(s[used..], n - used);
    }
  }

  lemma OneAcceptedHasRoom(s: seq<Byte>, n: nat)
    requires Quoted(s, n) && n > 0 && Cur(s) != '\0' && ProcessOne(s).Some?
    ensures OneHasRoom(s, n)
  {
    OneInside(s, n);
  }

  /** A refused escape: of the text "\u1",2 the comma and the 2 behind the quote are looked at. */
  lemma LooksBehindQuote()
    ensures Quoted("\\u1\",2", 3) && Look("\\u1\",2", 3) == 6
  {
    var s := "\\u1\",2";
    assert s[2..] == "1\",2" && s[3..] == "\",2" && s[4..] == ",2";
    assert SkipBody(s[3..]) == Some(s[4..]);
    assert SkipBody(s[2..]) == SkipBody(s[3..]) by { PlainSkipped(s[2..]); assert s[2..][1..] == s[3..]; }
    assert s[2..][1..] == "\",2" && s[2..][2..] == ",2" && s[1..][0] == 'u';
  }

  method StoreBytes(buffer: array<Byte>, out: nat, bytes: seq<Byte>)
    requires out + |bytes| <= buffer.Length
    modifies buffer
    ensures buffer[..out + |bytes|] == old(buffer[..out]) + bytes
  {
    forall k | 0 <= k < |bytes| {
      buffer[out + k] := bytes[k];
    }
  }

  /** One round of skip_quotes at place p. */
  lemma SkipBodyStep(text: seq<Byte>, p: nat)
    requires p <= |text|
    ensures var c, s := Cur(text[p..]), SkipBody(text[p..]);
            if c == '"' then s == Some(text[p + 1..])
            else if c == '\0' then s == None
            else if c == '\\' then
              var e := Cur(text[p + 1..]);
              if e == '\0' then s == None else p + 2 <= |text| && s == SkipBody(text[p + 2..])
            else s == SkipBody(text[p + 1..])
  {
    if p < |text| {
      assert text[p..][1..] == text[p + 1..];
      if p + 2 <= |text| { assert text[p..][2..] == text[p + 2..]; }
    }
  }

  lemma DropDrop<T>(s: seq<T>, i: nat, j: nat)
    requires i + j <= |s|
    ensures s[i..][j..] == s[i + j..]
  {}

  /** The output of the whole is what is out so far and then the output of the rest. */
  ghost predicate Continues(whole: Option<seq<Byte>>, sofar: seq<Byte>, rest: Option<seq<Byte>>) {
    match rest
    case None => whole == None
    case Some(more) => whole == Some(sofar + more)
  }

  lemma Continue0(whole: Option<seq<Byte>>)
    ensures Continues(whole, [], whole)
  {
    if whole.Some? {
      assert [] + whole.value == whole.value;
    }
  }

  lemma ContinueEnd(whole: Option<seq<Byte>>, sofar: seq<Byte>)
    requires Continues(whole, sofar, Some([]))
    ensures whole == Some(sofar)
  {
    assert sofar + [] == sofar;
  }

  lemma ContinueOne(whole: Option<seq<Byte>>, sofar: seq<Byte>, s: seq<Byte>, n: nat, bytes: seq<Byte>, used: nat)
    requires Cur(s) != '\0' && n > 0 && ProcessOne(s) == Some((bytes, used)) && Continues(whole, sofar, Process(s, n))
    ensures used <= |s| && Continues(whole, sofar + bytes, Process(s[used..], n - used))
  {
    var rest := Process(s[used..], n - used);
    if rest.Some? {
      assert sofar + (bytes + rest.value) == sofar + bytes + rest.value;
    }
  }

  lemma ProcessFails(s: seq<Byte>, n: nat)
    requires Cur(s) != '\0' && n > 0
    ensures ProcessOne(s).None? ==> Process(s, n).None?
  {}

  lemma ProcessEnds(s: seq<Byte>)
    ensures Process(s, 0) == Some([]) && Look(s, 0) == 1
  {}

  lemma LookStep(s: seq<Byte>, n: nat)
    requires Cur(s) != '\0' && n > 0
    ensures match ProcessOne(s)
            case None => Look(s, n) == OneLook(s)
            case Some((_, used)) => Look(s, n) == Further(OneLook(s), used + Look(s[used..], n - used))
  {}

  lemma NoFurther(k: nat)
    ensures Further(0, k) == k
  {}

  /**
   * One round of process_string at k characters from the beginning: what is out, and how far the text has been looked
   * at.
   */
  lemma RoundDone(s: seq<Byte>, left: nat, whole: Option<seq<Byte>>, sofar: seq<Byte>, all: nat, far: nat, k: nat)
    requires Quoted(s, left) && left > 0 && Cur(s) != '\0'
    requires Continues(whole, sofar, Process(s, left)) && all == Further(far, k + Look(s, left))
    ensures match ProcessOne(s)
            case None => whole == None && all == Further(far, k + OneLook(s))
            case Some((bytes, used)) =>
              && |bytes| <= used <= left && used <= |s| && Quoted(s[used..], left - used)
              && Continues(whole, sofar + bytes, Process(s[used..], left - used))
              && all == Further(Further(far, k + OneLook(s)), k + used + Look(s[used..], left - used))
  {
    hide ProcessOne, OneLook, Process, Quoted, Look;
    ProcessFails(s, left);
    LookStep(s, left);
    if ProcessOne(s).Some? {
      OneInside(s, left);
      ContinueOne(whole, sofar, s, left, ProcessOne(s).value.0, ProcessOne(s).value.1);
    }
  }

  class Reader<N(!new)> {
    const text: seq<Byte>
    const fmt: NumberFormat<N>
    var pos: nat

    constructor (text: seq<Byte>, fmt: NumberFormat<N>)
      ensures this.text == text && this.fmt == fmt && pos == 0
    {
      this.text, this.fmt, pos := text, fmt, 0;
    }

    ghost predicate Valid()
      reads this
    {
      pos <= |text|
    }

    /** What is left of the text. */
    ghost function Rest(): seq<Byte>
      reads this
      requires Valid()
    {
      text[pos..]
    }

    method Peek() returns (c: Byte)
      requires Valid()
      ensures c == Cur(Rest())
    {
      c := if pos < |text| then text[pos] else '\0';
    }

    /** SKIP_CHAR */
    method SkipChar()
      requires Valid() && Rest() != []
      modifies this
      ensures Valid() && pos == old(pos) + 1 && Rest() == old(Rest())[1..]
    {
      DropDrop(text, pos, 1);
      pos := pos + 1;
    }

    method SkipWhitespaces()
      requires Valid()
      modifies this
      ensures Valid() && old(pos) <= pos && Rest() == SkipWs(old(Rest()))
    {
      var c := Peek();
      while IsSpace(c)
        invariant Valid() && old(pos) <= pos && c == Cur(Rest())
        invariant SkipWs(Rest()) == SkipWs(old(Rest()))
        decreases |text| - pos
      {
        SkipChar();
        c := Peek();
      }
    }

    /** skip_quotes */
    method SkipQuotes() returns (ok: bool)
      requires Valid()
      modifies this
      ensures Valid() && old(pos) <= pos
      ensures ok == (Cur(old(Rest())) == '"' && SkipBody(old(Rest())[1..]).Some?)
      ensures ok ==> pos > old(pos) + 1 && Quoted(text[old(pos) + 1..], pos - old(pos) - 2)
      ensures ok ==> SkipBody(old(Rest())[1..]) == Some(Rest())
    {
      hide SkipBody;
      var c := Peek();
      if c != '"' {
        return false;
      }
      pos := pos + 1;
      ghost var start := pos;
      c := Peek();
      while c != '"'
        invariant Valid() && start <= pos && c == Cur(Rest())
        invariant SkipBody(Rest()) == SkipBody(text[start..])
        decreases |text| - pos
      {
        SkipBodyStep(text, pos);
        if c == '\0' {
          return false;
        } else if c == '\\' {
          pos := pos + 1;
          c := Peek();
          if c == '\0' {
            return false;
          }
        }
        pos := pos + 1;
        c := Peek();
      }
      SkipBodyStep(text, pos);
      pos := pos + 1;
      assert text[start..][pos - start..] == text[pos..];
      return true;
    }

    /** A character of the text, or the terminating zero. There is nothing to read behind that. */
    method At(i: nat) returns (c: Byte)
      requires i <= |text|
      ensures c == Cur(text[i..])
    {
      c := if i < |text| then text[i] else '\0';
    }

    /** parse_utf16_hex at place p */
    method ParseUtf16Hex(p: nat) returns (r: Option<nat>, ghost look: nat)
      requires p <= |text|
      ensures r == Hex4(text[p..]) && look == HexLook(text[p..])
    {
      var c0 := At(p);
      if c0 == '\0' { return None, 1; }
      assert text[p..][1..] == text[p + 1..];
      var c1 := At(p + 1);
      if c1 == '\0' { return None, 2; }
      assert text[p..][2..] == text[p + 2..];
      var c2 := At(p + 2);
      if c2 == '\0' { return None, 3; }
      assert text[p..][3..] == text[p + 3..];
      var c3 := At(p + 3);
      if c3 == '\0' { return None, 4; }
      var x1, x2, x3, x4 := HexValue(c0), HexValue(c1), HexValue(c2), HexValue(c3);
      look := 4;
      r := if x1 == -1 || x2 == -1 || x3 == -1 || x4 == -1 then None
           else Some(x1 * 0x1000 + x2 * 0x100 + x3 * 0x10 + x4);
    }

    /** parse_utf16 at place p, after the u */
    method ParseUtf16(p: nat) returns (r: Option<(seq<Byte>, nat)>, ghost look: nat)
      requires p <= |text|
      ensures r == Utf16Escape(text[p..]) && look == EscapeLook(text[p..])
    {
      hide Hex4, HexLook, Utf8;
      var cp;
      cp, look := ParseUtf16Hex(p);
      if cp.None? || 0xDC00 <= cp.value <= 0xDFFF {
        return None, look;
      } else if cp.value < 0xD800 || cp.value > 0xDFFF {
        return Some((Utf8(cp.value), 4)), look;
      }
      assert text[p..][4..] == text[p + 4..];
      var c := At(p + 4);
      if c != '\\' {
        return None, 5;
      }
      assert text[p..][5..] == text[p + 5..];
      c := At(p + 5);
      if c != 'u' {
        return None, 6;
      }
      assert text[p..][6..] == text[p + 6..];
      var trail;
      trail, look := ParseUtf16Hex(p + 6);
      look := 6 + look;
      if trail.None? || trail.value < 0xDC00 || trail.value > 0xDFFF {
        return None, look;
      }
      return Some((Utf8((cp.value - 0xD800) * 0x400 + (trail.value - 0xDC00) + 0x10000), 10)), look;
    }

    /** A round of process_string at place p, where the character is c */
    method ProcessCharacter(p: nat, c: Byte) returns (r: Option<(seq<Byte>, nat)>, ghost look: nat)
      requires p <= |text| && c == Cur(text[p..]) != '\0'
      ensures r == ProcessOne(text[p..]) && look == OneLook(text[p..])
    {
      hide Utf16Escape, EscapeLook, SimpleEscape;
      if c == '\\' {
        assert text[p..][1..] == text[p + 1..];
        var e := At(p + 1);
        if e == 'u' {
          assert text[p..][2..] == text[p + 2..];
          r, look := ParseUtf16(p + 2);
          look := 2 + look;
          r := if r.None? then None else Some((r.value.0, r.value.1 + 2));
        } else {
          var simple := SimpleEscape(e);
          look := 2;
          r := if simple.None? then None else Some(([simple.value], 2));
        }
      } else {
        look := 1;
        r := if c as int < 0x20 then None else Some(([c], 1));
      }
    }

    /**
     * process_string: the contents of the n quoted characters from `start` on. The output buffer of
     * n + 1 bytes is never overrun. `look` tells how far the text is looked at.
     */
    method ProcessString(start: nat, n: nat) returns (output: Option<seq<Byte>>, ghost look: nat)
      requires start <= |text| && Quoted(text[start..], n)
      ensures output == Process(text[start..], n)
      ensures output.Some? ==> |output.value| <= n
      ensures look == Look(text[start..], n) <= |text| - start + 1
      ensures look <= n + 1 <==> HasRoom(text[start..], n)
    {
      hide ProcessOne, OneLook, Process, Quoted, Look, HasRoom, Continues, Further;
      var buffer := new Byte[n + 1];
      var input: nat, out: nat := start, 0;
      ghost var s, left: nat, whole := text[start..], n, Process(text[start..], n);
      Continue0(whole);
      NoFurther(Look(s, n));
      LookInside(s, n);
      ghost var sofar: seq<Byte>, rest, far := [], whole, 0;
      var c := At(input);
      while c != '\0' && input - start < n
        invariant start <= input <= start + n && input <= |text| && out <= input - start && c == Cur(s)
        invariant s == text[input..] && left == n - (input - start)
        invariant Quoted(s, left)
        invariant sofar == buffer[..out] && rest == Process(s, left) && Continues(whole, sofar, rest)
        invariant Look(text[start..], n) == Further(far, input - start + Look(s, left))
        decreases n - (input - start)
      {
        var one;
        InsideQuotes(s, left);
        one, look := ProcessCharacter(input, c);
        RoundDone(s, left, whole, sofar, Look(text[start..], n), far, input - start);
        look := Further(far, input - start + look);
        if one.None? {
          return None, look;
        }
        far := look;
        var bytes, used := one.value.0, one.value.1;
        DropDrop(text, input, used);
        StoreBytes(buffer, out, bytes);
        s, left, sofar := s[used..], left - used, sofar + bytes;
        rest := Process(s, left);
        out, input := out + |bytes|, input + used;
        c := At(input);
      }
      InsideQuotes(s, left);
      ProcessEnds(s);
      look := Further(far, input - start + 1);
      ContinueEnd(whole, sofar);
      buffer[out] := '\0';
      assert buffer[..out] == sofar;
      return Some(buffer[..out]), look;
    }

    /** get_quoted_string */
    method ReadQuotedString() returns (contents: Option<seq<Byte>>)
      requires Valid()
      modifies this
      ensures Valid() && old(pos) <= pos
      ensures match GetQuotedString(old(Rest()))
              case None => contents == None
              case Some((s, rest)) => contents == Some(s) && Rest() == rest
    {
      hide SkipBody, Process, Quoted, HasRoom, Look;
      var stringStart := pos;
      var ok := SkipQuotes();
      if !ok {
        return None;
      }
      assert old(Rest())[1..] == text[stringStart + 1..];
      ghost var look;
      contents, look := ProcessString(stringStart + 1, pos - stringStart - 2);
    }

    /** A fixed token, compared with strncmp. */
    method SkipToken(token: seq<Byte>) returns (found: bool)
      requires Valid()
      modifies this
      ensures Valid() && found == (token <= old(Rest()))
      ensures if found then Rest() == old(Rest())[|token|..] else pos == old(pos)
    {
      found := pos + |token| <= |text| && text[pos..pos + |token|] == token;
      assert found ==> Rest()[..|token|] == token;
      assert token <= Rest() ==> text[pos..pos + |token|] == Rest()[..|token|];
      if found {
        pos := pos + |token|;
      }
    }

    /** parse_value */
    method ReadValue(nesting: nat) returns (value: Option<Value<N>>)
      requires Valid()
      modifies this
      ensures Valid() && old(pos) <= pos
      ensures Agrees(ParseValue(fmt, old(Rest()), nesting), value, Rest())
      decreases |text| - pos, 2
    {
      if nesting > MAX_NESTING {
        return None;
      }
      SkipWhitespaces();
      var c := Peek();
      if c == '{' {
        value := ReadObject(nesting + 1);
      } else if c == '[' {
        value := ReadArray(nesting + 1);
      } else if c == '"' {
        var contents := ReadQuotedString();
        value := if contents.None? then None else Some(String(contents.value));
      } else if c == 'f' || c == 't' {
        var isTrue := SkipToken("true");
        if isTrue {
          return Some(Boolean(true));
        }
        var isFalse := SkipToken("false");
        value := if isFalse then Some(Boolean(false)) else None;
      } else if c == '-' || '0' <= c <= '9' {
        var number := fmt.read(text[pos..]);
        if number.None? || number.value.1 > |text| - pos {
          return None;
        }
        pos := pos + number.value.1;
        value := Some(Number(number.value.0));
      } else if c == 'n' {
        var isNull := SkipToken("null");
        value := if isNull then Some(Null) else None;
      } else {
        value := None;
      }
    }

    /** parse_array_value */
    method ReadArray(nesting: nat) returns (value: Option<Value<N>>)
      requires Valid() && Cur(Rest()) == '['
      modifies this
      ensures Valid() && old(pos) <= pos
      ensures Agrees(ParseArray(fmt, old(Rest()), nesting), value, Rest())
      decreases |text| - pos, 1
    {
      SkipChar();
      SkipWhitespaces();
      var c := Peek();
      if c == ']' {
        SkipChar();
        return Some(Array([]));
      }
      var items := ReadItems(nesting);
      if items.None? {
        return None;
      }
      SkipWhitespaces();
      c := Peek();
      if c != ']' {
        return None;
      }
      SkipChar();
      return Some(Array(items.value));
    }

    /** The loop of parse_array_value. */
    method ReadItems(nesting: nat) returns (value: Option<seq<Value<N>>>)
      requires Valid()
      modifies this
      ensures Valid() && old(pos) <= pos
      ensures Agrees(ParseItems(fmt, old(Rest()), nesting), value, Rest())
      decreases |text| - pos, 3
    {
      ghost var whole := ParseItems(fmt, Rest(), nesting);
      var items: seq<Value<N>> := [];
      ExtendsStart(whole);
      var c := Peek();
      while c != '\0'
        invariant Valid() && old(pos) <= pos && c == Cur(Rest())
        invariant Extends(whole, items, ParseItems(fmt, Rest(), nesting))
        decreases |text| - pos
      {
        ghost var t, before := Rest(), items;
        var item := ReadValue(nesting);
        if item.None? {
          return None;
        }
        ghost var after := Rest();
        items := items + [item.value];
        SkipWhitespaces();
        c := Peek();
        if c != ',' {
          LastItemRead(fmt, t, nesting, item.value, after, whole, before);
          return Some(items);
        }
        SkipChar();
        SkipWhitespaces();
        NextItemRead(fmt, t, nesting, item.value, after, whole, before);
        c := Peek();
      }
      assert items + [] == items;
      return Some(items);
    }

    /** parse_object_value. json_object_add fails for a key the object already has. */
    method ReadObject(nesting: nat) returns (value: Option<Value<N>>)
      requires Valid() && Cur(Rest()) == '{'
      modifies this
      ensures Valid() && old(pos) <= pos
      ensures Agrees(ParseObject(fmt, old(Rest()), nesting), value, Rest())
      decreases |text| - pos, 1
    {
      SkipChar();
      SkipWhitespaces();
      var c := Peek();
      if c == '}' {
        SkipChar();
        return Some(Object([], []));
      }
      var members := ReadMembers(nesting);
      if members.None? {
        return None;
      }
      SkipWhitespaces();
      c := Peek();
      if c != '}' {
        return None;
      }
      SkipChar();
      return Some(Object(members.value.0, members.value.1));
    }

    /** A key and its colon. */
    method ReadKey() returns (value: Option<Key>)
      requires Valid()
      modifies this
      ensures Valid() && old(pos) <= pos
      ensures Agrees(ParseKey(old(Rest())), value, Rest())
    {
      var key := ReadQuotedString();
      if key.None? || '\0' in key.value {
        return None;
      }
      SkipWhitespaces();
      var c := Peek();
      if c != ':' {
        return None;
      }
      SkipChar();
      return key;
    }

    /** The loop of parse_object_value. */
    method ReadMembers(nesting: nat) returns (value: Option<(seq<Key>, seq<Value<N>>)>)
      requires Valid()
      modifies this
      ensures Valid() && old(pos) <= pos
      ensures Agrees(ParseMembers(fmt, old(Rest()), nesting, []), value, Rest())
      decreases |text| - pos, 3
    {
      ghost var whole := ParseMembers(fmt, Rest(), nesting, []);
      var names: seq<Key>, values: seq<Value<N>> := [], [];
      ExtendsMembersStart(whole);
      var c := Peek();
      while c != '\0'
        invariant Valid() && old(pos) <= pos && c == Cur(Rest())
        invariant ExtendsMembers(whole, names, values, ParseMembers(fmt, Rest(), nesting, names))
        decreases |text| - pos
      {
        ghost var t, names0, values0 := Rest(), names, values;
        var key := ReadKey();
        if key.None? {
          return None;
        }
        ghost var afterKey := Rest();
        var item := ReadValue(nesting);
        if item.None? || key.value in names {
          return None;
        }
        ghost var after := Rest();
        names, values := names + [key.value], values + [item.value];
        SkipWhitespaces();
        c := Peek();
        if c != ',' {
          LastMemberRead(fmt, t, nesting, key.value, afterKey, item.value, after, whole, names0, values0);
          return Some((names, values));
        }
        SkipChar();
        SkipWhitespaces();
        NextMemberRead(fmt, t, nesting, key.value, afterKey, item.value, after, whole, names0, values0);
        c := Peek();
      }
      assert names + [] == names && values + [] == values;
      return Some((names, values));
    }
  }

  lemma LastItemRead<N>(fmt: NumberFormat<N>, t: seq<Byte>, nesting: nat, v: Value<N>, after: seq<Byte>,
                        whole: Parsed<seq<Value<N>>>, sofar: seq<Value<N>>)
    requires Cur(t) != '\0' && ParseValue(fmt, t, nesting) == Some((v, after)) && Cur(SkipWs(after)) != ','
    requires Extends(whole, sofar, ParseItems(fmt, t, nesting))
    ensures whole == Some((sofar + [v], SkipWs(after)))
  {}

  lemma NextItemRead<N>(fmt: NumberFormat<N>, t: seq<Byte>, nesting: nat, v: Value<N>, after: seq<Byte>,
                        whole: Parsed<seq<Value<N>>>, sofar: seq<Value<N>>)
    requires Cur(t) != '\0' && ParseValue(fmt, t, nesting) == Some((v, after)) && Cur(SkipWs(after)) == ','
    requires Extends(whole, sofar, ParseItems(fmt, t, nesting))
    ensures Extends(whole, sofar + [v], ParseItems(fmt, SkipWs(SkipWs(after)[1..]), nesting))
  {
    ExtendsStep(whole, sofar, v, ParseItems(fmt, SkipWs(SkipWs(after)[1..]), nesting));
  }

  lemma LastMemberRead<N>(fmt: NumberFormat<N>, t: seq<Byte>, nesting: nat, key: Key, afterKey: seq<Byte>, v: Value<N>,
                          after: seq<Byte>, whole: Parsed<(seq<Key>, seq<Value<N>>)>, names: seq<Key>,
                              values: seq<Value<N>>)
    requires Cur(t) != '\0' && ParseKey(t) == Some((key, afterKey)) && key !in names
    requires ParseValue(fmt, afterKey, nesting) == Some((v, after)) && Cur(SkipWs(after)) != ','
    requires ExtendsMembers(whole, names, values, ParseMembers(fmt, t, nesting, names))
    ensures whole == Some(((names + [key], values + [v]), SkipWs(after)))
  {}

  lemma NextMemberRead<N>(fmt: NumberFormat<N>, t: seq<Byte>, nesting: nat, key: Key, afterKey: seq<Byte>, v: Value<N>,
                          after: seq<Byte>, whole: Parsed<(seq<Key>, seq<Value<N>>)>, names: seq<Key>,
                              values: seq<Value<N>>)
    requires Cur(t) != '\0' && ParseKey(t) == Some((key, afterKey)) && key !in names
    requires ParseValue(fmt, afterKey, nesting) == Some((v, after)) && Cur(SkipWs(after)) == ','
    requires ExtendsMembers(whole, names, values, ParseMembers(fmt, t, nesting, names))
    ensures ExtendsMembers(whole, names + [key], values + [v],
                           ParseMembers(fmt, SkipWs(SkipWs(after)[1..]), nesting, names + [key]))
  {
    ExtendsMembersStep(whole, names, values, key, v,
        ParseMembers(fmt, SkipWs(SkipWs(after)[1..]), nesting, names + [key]));
  }

  lemma ExtendsStart<T>(whole: Parsed<seq<T>>)
    ensures Extends(whole, [], whole)
  {
    if whole.Some? {
      assert [] + whole.value.0 == whole.value.0;
    }
  }

  lemma ExtendsStep<T>(whole: Parsed<seq<T>>, sofar: seq<T>, item: T, rest: Parsed<seq<T>>)
    requires rest.None? ==> Extends(whole, sofar, None)
    requires rest.Some? ==> Extends(whole, sofar, Some(([item] + rest.value.0, rest.value.1)))
    ensures Extends(whole, sofar + [item], rest)
  {
    if rest.Some? {
      assert sofar + ([item] + rest.value.0) == sofar + [item] + rest.value.0;
    }
  }

  lemma ExtendsMembersStart<N>(whole: Parsed<(seq<Key>, seq<Value<N>>)>)
    ensures ExtendsMembers(whole, [], [], whole)
  {
    if whole.Some? {
      assert [] + whole.value.0.0 == whole.value.0.0 && [] + whole.value.0.1 == whole.value.0.1;
    }
  }

  lemma ExtendsMembersStep<N>(whole: Parsed<(seq<Key>, seq<Value<N>>)>, names: seq<Key>, values: seq<Value<N>>,
                              key: Key, item: Value<N>, rest: Parsed<(seq<Key>, seq<Value<N>>)>)
    requires rest.None? ==> ExtendsMembers(whole, names, values, None)
    requires rest.Some? ==>
               ExtendsMembers(whole, names, values,
                   Some((([key] + rest.value.0.0, [item] + rest.value.0.1), rest.value.1)))
    ensures ExtendsMembers(whole, names + [key], values + [item], rest)
  {
    if rest.Some? {
      assert names + ([key] + rest.value.0.0) == names + [key] + rest.value.0.0;
      assert values + ([item] + rest.value.0.1) == values + [item] + rest.value.0.1;
    }
  }

  /** A routine found what the parser function finds, and stopped where it stops. */
  ghost predicate Agrees<T>(spec: Parsed<T>, value: Option<T>, rest: seq<Byte>) {
    match spec
    case None => value == None
    case Some((v, r)) => value == Some(v) && rest == r
  }

  /** The parse of the whole is the items found so far and then the parse of the rest. */
  ghost predicate Extends<T>(whole: Parsed<seq<T>>, sofar: seq<T>, rest: Parsed<seq<T>>) {
    match rest
    case None => whole == None
    case Some((more, end)) => whole == Some((sofar + more, end))
  }

  ghost predicate ExtendsMembers<N>(whole: Parsed<(seq<Key>, seq<Value<N>>)>, names: seq<Key>, values: seq<Value<N>>,
                                    rest: Parsed<(seq<Key>, seq<Value<N>>)>) {
    match rest
    case None => whole == None
    case Some(((moreNames, moreValues), end)) => whole == Some(((names + moreNames, values + moreValues), end))
  }
}
